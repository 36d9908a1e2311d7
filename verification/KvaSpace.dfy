/** A stretch of address space split between free extents and live reservations. */
module KvaSpace {
  const GUARD := 4096
  const PAGE := 4096
  const MAX_EXTENTS := 512

  datatype Extent = Extent(start: nat, end: nat)

  predicate Holds(x: Extent, a: nat) {
    x.start <= a < x.end
  }

  ghost predicate FreeAt(free: seq<Extent>, a: nat) {
    exists i | 0 <= i < |free| :: Holds(free[i], a)
  }

  ghost predicate LiveAt(live: set<Extent>, a: nat) {
    exists x | x in live :: Holds(x, a)
  }

  /** Ascending, none empty, no two touching. */
  ghost predicate Separate(free: seq<Extent>) {
    && (forall i | 0 <= i < |free| :: free[i].start < free[i].end)
    && (forall i, j | 0 <= i < j < |free| :: free[i].end < free[j].start)
  }

  ghost predicate Disjoint(live: set<Extent>) {
    && (forall x | x in live :: x.start < x.end)
    && (forall x, y | x in live && y in live && x != y :: x.end <= y.start || y.end <= x.start)
  }

  /** Every address of the space is in exactly one free extent or one reservation; nothing lies outside. */
  ghost predicate Partition(base: nat, end: nat, free: seq<Extent>, live: set<Extent>) {
    && base < end && Separate(free) && Disjoint(live)
    && (forall a: nat :: FreeAt(free, a) || LiveAt(live, a) <==> base <= a < end)
    && (forall a: nat :: !(FreeAt(free, a) && LiveAt(live, a)))
  }

  // ----- how many extents there can be -----

  /** Right after every extent but the last a reservation begins. */
  lemma AfterExtent(base: nat, end: nat, free: seq<Extent>, live: set<Extent>, i: nat) returns (x: Extent)
    requires Partition(base, end, free, live) && i + 1 < |free|
    ensures x in live && x.start == free[i].end
  {
    var a := free[i].end;
    assert Holds(free[i], free[i].start) && Holds(free[i + 1], free[i + 1].start) && Holds(free[i], a - 1);
    assert FreeAt(free, free[i].start) && FreeAt(free, free[i + 1].start) && FreeAt(free, a - 1);
    NotFreeThere(free, i);
    assert LiveAt(live, a);
    x :| x in live && Holds(x, a);
    assert x.start < a ==> Holds(x, a - 1);
  }

  lemma NotFreeThere(free: seq<Extent>, i: nat)
    requires Separate(free) && i < |free|
    ensures !FreeAt(free, free[i].end)
  {
    forall k | 0 <= k < |free| ensures !Holds(free[k], free[i].end) {
      assert k < i ==> free[k].end < free[i].start;
      assert i < k ==> free[i].end < free[k].start;
    }
  }

  lemma {:induction false} ReservationsAfter(base: nat, end: nat, free: seq<Extent>, live: set<Extent>, k: nat)
      returns (s: set<Extent>)
    requires Partition(base, end, free, live) && k < |free|
    ensures s <= live && |s| == k && forall x | x in s :: x.start < free[k].start
  {
    if k == 0 {
      s := {};
    } else {
      var t := ReservationsAfter(base, end, free, live, k - 1);
      var x := AfterExtent(base, end, free, live, k - 1);
      assert free[k - 1].end < free[k].start;
      assert x !in t;
      s := t + {x};
    }
  }

  /** Removing n reservations from one interval leaves at most n + 1 pieces. */
  lemma FewExtents(base: nat, end: nat, free: seq<Extent>, live: set<Extent>)
    requires Partition(base, end, free, live)
    ensures |free| <= |live| + 1
  {
    if free != [] {
      var s := ReservationsAfter(base, end, free, live, |free| - 1);
      SubsetSize(s, live);
    }
  }

  lemma SubsetSize(s: set<Extent>, t: set<Extent>)
    requires s <= t
    ensures |s| <= |t|
  {
    assert t == s + (t - s);
  }

  /** With nothing reserved the whole space is one extent, whatever order the reservations were freed in. */
  lemma AllFree(base: nat, end: nat, free: seq<Extent>)
    requires Partition(base, end, free, {})
    ensures free == [Extent(base, end)]
  {
    FewExtents(base, end, free, {});
    assert FreeAt(free, base) by {
      NoneLive(base);
    }
    assert FreeAt(free, end - 1) by {
      NoneLive(end - 1);
    }
    var x := free[0];
    assert FreeAt(free, x.start) && FreeAt(free, x.end - 1) by {
      assert Holds(free[0], x.start) && Holds(free[0], x.end - 1);
    }
  }

  lemma NoneLive(a: nat)
    ensures !LiveAt({}, a)
  {
  }

  // ----- one reservation more, one less -----

  /** Taking the front of an extent for a reservation keeps the partition. */
  lemma TakeFront(base: nat, end: nat, free: seq<Extent>, live: set<Extent>, i: nat, cut: nat, free': seq<Extent>)
    requires Partition(base, end, free, live) && i < |free| && free[i].start < cut <= free[i].end
    requires free' == if cut == free[i].end then free[..i] + free[i + 1..] else free[i := Extent(cut, free[i].end)]
    ensures Partition(base, end, free', live + {Extent(free[i].start, cut)}) && Extent(free[i].start, cut) !in live
  {
    var x := Extent(free[i].start, cut);
    TakeFrontSeparate(free, i, cut, free');
    forall a: nat ensures FreeAt(free', a) <==> FreeAt(free, a) && !Holds(x, a) {
      TakeFrontAt(free, i, cut, free', a);
    }
    forall a: nat | Holds(x, a) ensures FreeAt(free, a) {
      assert Holds(free[i], a);
    }
    assert x !in live by {
      assert Holds(x, x.start);
      assert FreeAt(free, x.start);
    }
    forall y | y in live ensures y.end <= x.start || x.end <= y.start {
      DisjointFromFree(free, live, x, y);
    }
    forall a: nat ensures LiveAt(live + {x}, a) <==> LiveAt(live, a) || Holds(x, a) {
      LiveWith(live, x, a);
    }
  }

  /** A reservation made of free addresses overlaps no live one. */
  lemma DisjointFromFree(free: seq<Extent>, live: set<Extent>, x: Extent, y: Extent)
    requires x.start < x.end && y in live && y.start < y.end
    requires forall a: nat | Holds(x, a) :: FreeAt(free, a)
    requires forall a: nat :: !(FreeAt(free, a) && LiveAt(live, a))
    ensures y.end <= x.start || x.end <= y.start
  {
    if x.start < y.end && y.start < x.end {
      var a := if x.start <= y.start then y.start else x.start;
      assert Holds(x, a) && Holds(y, a);
    }
  }

  lemma LiveWith(live: set<Extent>, x: Extent, a: nat)
    ensures LiveAt(live + {x}, a) <==> LiveAt(live, a) || Holds(x, a)
  {
    assert x in live + {x};
    if LiveAt(live, a) {
      var y :| y in live && Holds(y, a);
      assert y in live + {x};
    }
  }

  lemma TakeFrontSeparate(free: seq<Extent>, i: nat, cut: nat, free': seq<Extent>)
    requires Separate(free) && i < |free| && free[i].start < cut <= free[i].end
    requires free' == if cut == free[i].end then free[..i] + free[i + 1..] else free[i := Extent(cut, free[i].end)]
    ensures Separate(free')
  {
  }

  lemma TakeFrontAt(free: seq<Extent>, i: nat, cut: nat, free': seq<Extent>, a: nat)
    requires Separate(free) && i < |free| && free[i].start < cut <= free[i].end
    requires free' == if cut == free[i].end then free[..i] + free[i + 1..] else free[i := Extent(cut, free[i].end)]
    ensures FreeAt(free', a) <==> FreeAt(free, a) && !Holds(Extent(free[i].start, cut), a)
  {
    hide FreeAt, Separate;
    assert free[i..i + 1] == [free[i]];
    SplitFree(free, i, i + 1, a);
    FreeAtOne(free[i], a);
    FreeAtNone(a);
    if Holds(free[i], a) {
      OnlyOne(free, i, a);
    }
    if cut == free[i].end {
      FreeAtConcat(free[..i], free[i + 1..], a);
    } else {
      assert free' == free[..i] + [Extent(cut, free[i].end)] + free[i + 1..];
      SpliceAt(free, i, i + 1, Extent(cut, free[i].end), a);
    }
  }

  lemma OnlyOne(free: seq<Extent>, i: nat, a: nat)
    requires Separate(free) && i < |free| && Holds(free[i], a)
    ensures !FreeAt(free[..i], a) && !FreeAt(free[i + 1..], a)
  {
    forall k | 0 <= k < i ensures !Holds(free[..i][k], a) {
      assert free[k].end < free[i].start;
    }
    var rest := free[i + 1..];
    forall k | 0 <= k < |rest| ensures !Holds(rest[k], a) {
      assert rest[k] == free[k + i + 1];
      assert free[i].end < free[k + i + 1].start;
    }
  }

  /** The free extents with `[start, end)` put back before index `at`, joined to the neighbours it touches. */
  function PutBack(free: seq<Extent>, at: nat, start: nat, end: nat): seq<Extent>
    requires at <= |free|
  {
    var left := at > 0 && free[at - 1].end == start;
    var right := at < |free| && free[at].start == end;
    free[..if left then at - 1 else at]
    + [Extent(if left then free[at - 1].start else start, if right then free[at].end else end)]
    + free[if right then at + 1 else at..]
  }

  ghost predicate Between(free: seq<Extent>, at: nat, start: nat, end: nat) {
    && at <= |free| && start < end
    && (at > 0 ==> free[at - 1].end <= start) && (at < |free| ==> end <= free[at].start)
  }

  lemma FreeAtConcat(s: seq<Extent>, t: seq<Extent>, a: nat)
    ensures FreeAt(s + t, a) <==> FreeAt(s, a) || FreeAt(t, a)
  {
    var r := s + t;
    if FreeAt(s, a) {
      var k :| 0 <= k < |s| && Holds(s[k], a);
      assert Holds(r[k], a);
    }
    if FreeAt(t, a) {
      var k :| 0 <= k < |t| && Holds(t[k], a);
      assert Holds(r[|s| + k], a);
    }
    if FreeAt(r, a) {
      var k :| 0 <= k < |r| && Holds(r[k], a);
      assert if k < |s| then Holds(s[k], a) else Holds(t[k - |s|], a);
    }
  }

  lemma FreeAtOne(x: Extent, a: nat)
    ensures FreeAt([x], a) <==> Holds(x, a) && !FreeAt([], a)
  {
    assert Holds(x, a) ==> Holds([x][0], a);
  }

  lemma FreeAtNone(a: nat)
    ensures !FreeAt([], a)
  {
  }

  /** Replacing a stretch by one extent that clears its neighbours. */
  lemma SpliceSeparate(free: seq<Extent>, n: nat, m: nat, mid: Extent)
    requires Separate(free) && n <= m <= |free| && mid.start < mid.end
    requires (n > 0 ==> free[n - 1].end < mid.start) && (m < |free| ==> mid.end < free[m].start)
    ensures Separate(free[..n] + [mid] + free[m..])
  {
    var r := free[..n] + [mid] + free[m..];
    forall i | 0 <= i < n ensures free[i].end < mid.start {
      assert i < n - 1 ==> free[i].end < free[n - 1].start;
    }
    forall i | m <= i < |free| ensures mid.end < free[i].start {
      assert m < i ==> free[m].end < free[i].start;
    }
    forall i, j | 0 <= i < j < |r| ensures r[i].end < r[j].start {
      SpliceIndex(free, n, m, mid, i);
      SpliceIndex(free, n, m, mid, j);
    }
    forall i | 0 <= i < |r| ensures r[i].start < r[i].end {
      SpliceIndex(free, n, m, mid, i);
    }
  }

  lemma SpliceIndex(free: seq<Extent>, n: nat, m: nat, mid: Extent, i: nat)
    requires n <= m <= |free| && i < n + 1 + |free| - m
    ensures (free[..n] + [mid] + free[m..])[i] == if i < n then free[i] else if i == n then mid else free[i - n - 1 + m]
  {
  }

  lemma PutBackSeparate(free: seq<Extent>, at: nat, start: nat, end: nat)
    requires Separate(free) && Between(free, at, start, end)
    ensures Separate(PutBack(free, at, start, end))
  {
    var left := at > 0 && free[at - 1].end == start;
    var right := at < |free| && free[at].start == end;
    assert left && at > 1 ==> free[at - 2].end < free[at - 1].start;
    assert right && at + 1 < |free| ==> free[at].end < free[at + 1].start;
    SpliceSeparate(free, if left then at - 1 else at, if right then at + 1 else at,
                   Extent(if left then free[at - 1].start else start, if right then free[at].end else end));
  }

  lemma SplitFree(free: seq<Extent>, n: nat, m: nat, a: nat)
    requires n <= m <= |free|
    ensures FreeAt(free, a) <==> FreeAt(free[..n], a) || FreeAt(free[n..m], a) || FreeAt(free[m..], a)
  {
    hide FreeAt;
    assert free == free[..n] + free[n..m] + free[m..];
    FreeAtConcat(free[..n] + free[n..m], free[m..], a);
    FreeAtConcat(free[..n], free[n..m], a);
  }

  lemma SpliceAt(free: seq<Extent>, n: nat, m: nat, mid: Extent, a: nat)
    requires n <= m <= |free|
    ensures FreeAt(free[..n] + [mid] + free[m..], a) <==> FreeAt(free[..n], a) || Holds(mid, a) || FreeAt(free[m..], a)
  {
    hide FreeAt;
    FreeAtConcat(free[..n] + [mid], free[m..], a);
    FreeAtConcat(free[..n], [mid], a);
    FreeAtOne(mid, a);
    FreeAtNone(a);
  }

  /** A stretch of at most one extent. */
  lemma OneOrNone(free: seq<Extent>, i: nat, j: nat, a: nat)
    requires i <= j <= |free| && j <= i + 1
    ensures FreeAt(free[i..j], a) <==> i < j && Holds(free[i], a)
  {
    if i < j {
      assert free[i..j] == [free[i]];
      FreeAtOne(free[i], a);
      FreeAtNone(a);
    }
  }

  /** The extents that are joined, together with what is put back, are one extent. */
  lemma JoinedAt(free: seq<Extent>, at: nat, start: nat, end: nat, n: nat, m: nat, mid: Extent, a: nat)
    requires Separate(free) && Between(free, at, start, end)
    requires n == (if at > 0 && free[at - 1].end == start then at - 1 else at)
    requires m == (if at < |free| && free[at].start == end then at + 1 else at)
    requires mid.start == (if n < at then free[at - 1].start else start)
             && mid.end == (if at < m then free[at].end else end)
    ensures Holds(mid, a) <==> FreeAt(free[n..m], a) || start <= a < end
  {
    hide FreeAt;
    assert free[n..m] == free[n..at] + free[at..m];
    FreeAtConcat(free[n..at], free[at..m], a);
    OneOrNone(free, n, at, a);
    OneOrNone(free, at, m, a);
  }

  lemma PutBackAt(free: seq<Extent>, at: nat, start: nat, end: nat, a: nat)
    requires Separate(free) && Between(free, at, start, end)
    ensures FreeAt(PutBack(free, at, start, end), a) <==> FreeAt(free, a) || start <= a < end
  {
    hide FreeAt, Holds, Separate;
    var left := at > 0 && free[at - 1].end == start;
    var right := at < |free| && free[at].start == end;
    var n := if left then at - 1 else at;
    var m := if right then at + 1 else at;
    var mid := Extent(if left then free[at - 1].start else start, if right then free[at].end else end);
    SplitFree(free, n, m, a);
    SpliceAt(free, n, m, mid, a);
    JoinedAt(free, at, start, end, n, m, mid, a);
  }

  /** Freeing a live reservation keeps the partition. */
  lemma PutBackPartition(base: nat, end: nat, free: seq<Extent>, live: set<Extent>, at: nat, x: Extent)
    requires Partition(base, end, free, live) && x in live && Between(free, at, x.start, x.end)
    ensures Partition(base, end, PutBack(free, at, x.start, x.end), live - {x})
  {
    hide PutBack;
    PutBackSeparate(free, at, x.start, x.end);
    forall a: nat ensures FreeAt(PutBack(free, at, x.start, x.end), a) <==> FreeAt(free, a) || Holds(x, a) {
      PutBackAt(free, at, x.start, x.end, a);
    }
    forall a: nat ensures LiveAt(live - {x}, a) <==> LiveAt(live, a) && !Holds(x, a) {
      LiveWithout(live, x, a);
    }
    forall a: nat | Holds(x, a) ensures LiveAt(live, a) {
    }
  }

  lemma LiveWithout(live: set<Extent>, x: Extent, a: nat)
    requires Disjoint(live) && x in live
    ensures LiveAt(live - {x}, a) <==> LiveAt(live, a) && !Holds(x, a)
  {
    if LiveAt(live, a) && !Holds(x, a) {
      var y :| y in live && Holds(y, a);
      assert y in live - {x};
    }
  }
}
