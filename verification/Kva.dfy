/** The kernel virtual address allocator: first fit over a sorted table of free extents. */
module Kva {
  import opened KvaSpace
  import opened Statuses
  import opened Words

  /** A reservation's extent: the usable range with a guard page on each side. */
  function Guarded(va: nat, size: nat): Extent {
    Extent(if va >= GUARD then va - GUARD else 0, va + size + GUARD)
  }

  ghost predicate Refused(base: nat, end: nat, free: seq<Extent>, va: nat, size: nat) {
    || size == 0 || size % PAGE != 0 || va < GUARD
    || Wrap(va + size + GUARD) < va || va - GUARD < base || Wrap(va + size + GUARD) > end
    || Overlaps(free, va - GUARD, Wrap(va + size + GUARD))
  }

  ghost predicate Overlaps(free: seq<Extent>, start: nat, end: nat) {
    exists i | 0 <= i < |free| :: free[i].start < end && start < free[i].end
  }

  /** Where a range that starts at `start` belongs in a sorted table. */
  ghost function Slot(free: seq<Extent>, start: nat): (at: nat)
    ensures IsSlot(free, start, at)
  {
    if free == [] || free[0].start >= start then 0
    else
      var at := Slot(free[1..], start);
      assert forall k | 0 < k < at + 1 :: free[k] == free[1..][k - 1];
      at + 1
  }

  ghost predicate IsSlot(free: seq<Extent>, start: nat, at: nat) {
    && at <= |free| && (forall k | 0 <= k < at :: free[k].start < start)
    && (at < |free| ==> start <= free[at].start)
  }

  lemma SlotIs(free: seq<Extent>, start: nat, at: nat)
    requires IsSlot(free, start, at)
    ensures at == Slot(free, start)
  {
    hide Slot;
  }

  /** The table is full and the range touches neither of its neighbours there. */
  ghost predicate NoRoom(free: seq<Extent>, start: nat, stop: nat) {
    var at := Slot(free, start);
    |free| == MAX_EXTENTS && !(at > 0 && free[at - 1].end == start) && !(at < |free| && free[at].start == stop)
  }

  /** The overflow test in freeing catches every wrap of the range except one size, 2^64 - 4096, for which the
      range shrinks to the guard page below. */
  lemma OverflowTest(va: nat, size: nat)
    requires GUARD <= va < TWO64 && 0 < size < TWO64 && size % PAGE == 0
    ensures Wrap(va + size + GUARD) < va <==> va + size + GUARD >= TWO64 && size != TWO64 - PAGE
  {
    var sum := va + size + GUARD;
    assert sum < 2 * TWO64 ==> Wrap(sum) == if sum < TWO64 then sum else sum - TWO64;
    assert size <= TWO64 - PAGE;
  }

  class KvaState {
    const base: nat
    const end: nat
    const extents: array<Extent>
    var count: nat
    var liveCount: nat
    ghost var live: set<Extent>

    /** What every call keeps, whatever it is given. */
    ghost predicate Table()
      reads this, extents
    {
      extents.Length == MAX_EXTENTS && count <= MAX_EXTENTS && end < TWO64 && Separate(extents[..count])
    }

    ghost predicate Valid()
      reads this, extents
    {
      && Table()
      && Partition(base, end, extents[..count], live)
      && liveCount == |live| < MAX_EXTENTS
    }

    constructor (base: nat, end: nat)
      requires base < end < TWO64
      ensures Valid() && fresh(extents) && live == {} && this.base == base && this.end == end
      ensures extents[..count] == [Extent(base, end)]
    {
      this.base, this.end := base, end;
      extents := new Extent[MAX_EXTENTS](i => Extent(base, end));
      count, liveCount := 1, 0;
      live := {};
      new;
      assert extents[..count] == [Extent(base, end)];
      WholeSpace(base, end);
    }

    method RemoveAt(i: nat)
      requires i < count <= extents.Length
      modifies extents, this`count
      ensures count == old(count) - 1 && extents[..count] == old(extents[..i]) + old(extents[i + 1..count])
    {
      ghost var was := extents[..count];
      var j := i;
      while j + 1 < count
        invariant i <= j < count && count == old(count)
        invariant extents[..j] == was[..i] + was[i + 1..j + 1]
        invariant extents[j + 1..count] == was[j + 1..]
      {
        ghost var done, rest := extents[..j], extents[j + 1..count];
        assert extents[j + 1] == rest[0] == was[j + 1];
        extents[j] := extents[j + 1];
        assert extents[..j + 1] == done + [was[j + 1]];
        assert extents[j + 2..count] == rest[1..];
        j := j + 1;
      }
      count := count - 1;
    }

    method InsertAt(i: nat, x: Extent)
      requires i <= count < extents.Length
      modifies extents, this`count
      ensures count == old(count) + 1 && extents[..count] == old(extents[..i]) + [x] + old(extents[i..count])
    {
      ghost var was := extents[..count];
      var j := count;
      while j > i
        invariant i <= j <= count == old(count)
        invariant forall k | 0 <= k < j :: extents[k] == was[k]
        invariant forall k | j <= k < count :: extents[k + 1] == was[k]
      {
        extents[j] := extents[j - 1];
        j := j - 1;
      }
      extents[i] := x;
      count := count + 1;
      Inserted(was, extents[..count], i, x);
    }

    /** Puts a range back at index `at` of the table, joining it to the neighbours it touches. */
    method Join(at: nat, start: nat, stop: nat) returns (ok: bool)
      requires at <= count <= extents.Length == MAX_EXTENTS && at == Slot(extents[..count], start)
      modifies extents, this`count
      ensures ok <==> !NoRoom(old(extents[..count]), start, stop)
      ensures count <= extents.Length
      ensures extents[..count] == if ok then PutBack(old(extents[..count]), at, start, stop) else old(extents[..count])
    {
      hide Slot, PutBack;
      ok := true;
      ghost var free := extents[..count];
      var left := at > 0 && extents[at - 1].end == start;
      var right := at < count && extents[at].start == stop;
      if left && right {
        extents[at - 1] := Extent(extents[at - 1].start, extents[at].end);
        ghost var joined := extents[..count];
        RemoveAt(at);
        assert joined == free[at - 1 := Extent(free[at - 1].start, free[at].end)];
        assert joined[at + 1..] == free[at + 1..] && joined[..at] == free[..at - 1] + [joined[at - 1]];
      } else if left {
        extents[at - 1] := Extent(extents[at - 1].start, stop);
      } else if right {
        extents[at] := Extent(start, extents[at].end);
      } else if count >= MAX_EXTENTS {
        return false;
      } else {
        InsertAt(at, Extent(start, stop));
      }
      PutBackCases(free, at, start, stop);
    }

    /** First fit: the lowest extent with room for the size and its two guard pages. */
    method Alloc(size: nat) returns (status: Status, va: nat)
      requires Valid() && size < TWO64
      modifies this`count, this`liveCount, this`live, extents
      ensures Valid()
      ensures status == ErrInvalid <==> size == 0 || size % PAGE != 0 || size + 2 * GUARD >= TWO64
      ensures status == ErrNoMemory <==> size != 0 && size % PAGE == 0 && size + 2 * GUARD < TWO64 &&
                                         (old(liveCount) == MAX_EXTENTS - 1 || forall i | 0 <= i < old(count) ::
                                           old(extents[i].end - extents[i].start) < size + 2 * GUARD)
      ensures status in {Ok, ErrInvalid, ErrNoMemory}
      ensures status != Ok ==> live == old(live) && extents[..count] == old(extents[..count])
      ensures status == Ok ==> va >= GUARD && Guarded(va, size) !in old(live) && live == old(live) + {Guarded(va, size)}
      ensures status == Ok ==> FirstFit(old(extents[..count]), va - GUARD, size + 2 * GUARD)
    {
      hide Partition;
      va := 0;
      if size == 0 || size % PAGE != 0 {
        return ErrInvalid, va;
      }
      var need := Wrap(size + 2 * GUARD);
      if need < size {
        return ErrInvalid, va;
      }
      assert need == size + 2 * GUARD;
      if liveCount >= MAX_EXTENTS - 1 {
        return ErrNoMemory, va;
      }
      ghost var free := extents[..count];
      var i := 0;
      while i < count
        invariant 0 <= i <= count && extents[..count] == free
        invariant forall k | 0 <= k < i :: extents[k].end - extents[k].start < need
      {
        var start := extents[i].start;
        if extents[i].end - start >= need {
          var newStart := start + need;
          assert free[i] == extents[i];
          if newStart == extents[i].end {
            RemoveAt(i);
            assert extents[..count] == free[..i] + free[i + 1..];
          } else {
            extents[i] := Extent(newStart, extents[i].end);
            assert extents[..count] == free[i := Extent(newStart, free[i].end)];
          }
          TakeFront(base, end, free, live, i, newStart, extents[..count]);
          va := start + GUARD;
          live := live + {Extent(start, newStart)};
          liveCount := liveCount + 1;
          assert forall k | 0 <= k < i :: free[k].end - free[k].start < need;
          return Ok, va;
        }
        i := i + 1;
      }
      status := ErrNoMemory;
    }

    /** Puts a range with its guards back unless it is refused. For a live reservation, freed as it was made,
        this always succeeds and keeps the partition. */
    method Free(va: nat, size: nat) returns (status: Status)
      requires Table() && va < TWO64 && size < TWO64 && liveCount < TWO32
      modifies this`count, this`liveCount, this`live, extents
      ensures Table() && (status == Ok || status == ErrInvalid)
      ensures var free := old(extents[..count]);
              && (status == Ok <==>
                 !Refused(base, end, free, va, size) && !NoRoom(free, va - GUARD, Wrap(va + size + GUARD)))
              && (status == Ok ==> extents[..count]
                                   == PutBack(free, Slot(free, va - GUARD), va - GUARD, Wrap(va + size + GUARD)))
              && (status == Ok ==> forall a: nat ::
                    FreeAt(extents[..count], a) <==> FreeAt(free, a) || va - GUARD <= a < Wrap(va + size + GUARD))
              && (status != Ok ==> extents[..count] == free && live == old(live) && liveCount == old(liveCount))
      ensures status == Ok ==> live == old(live) - {Guarded(va, size)}
      ensures status == Ok ==> liveCount == if old(liveCount) == 0 then TWO32 - 1 else old(liveCount) - 1
      ensures old(Valid() && IsLive(live, va, size)) ==> status == Ok && Valid()
      ensures old(Valid()) && status != Ok ==> Valid()
    {
      hide Partition, Separate, PutBack, Overlaps, Slot, FreeAt, NoRoom;
      ghost var free := extents[..count];
      if size == 0 || size % PAGE != 0 || va < GUARD {
        StillLive(base, end, free, live, va, size);
        return ErrInvalid;
      }
      var start, stop := va - GUARD, Wrap(va + size + GUARD);
      if stop < va || start < base || stop > end {
        StillLive(base, end, free, live, va, size);
        return ErrInvalid;
      }
      var at := 0;
      while at < count && extents[at].start < start
        invariant 0 <= at <= count && extents[..count] == free
        invariant forall k | 0 <= k < at :: free[k].start < start
      {
        assert free[at] == extents[at];
        at := at + 1;
      }
      SlotIs(free, start, at);
      NeighboursDecide(free, at, start, stop);
      StillLive(base, end, free, live, va, size);
      if at > 0 && extents[at - 1].end > start {
        return ErrInvalid;
      }
      if at < count && extents[at].start < stop {
        return ErrInvalid;
      }
      NotRefused(base, end, free, va, size);
      PutBackAll(free, at, start, stop);
      var ok := Join(at, start, stop);
      if Partition(base, end, free, live) && liveCount == |live| < MAX_EXTENTS && IsLive(live, va, size) {
        LiveFreed(base, end, free, live, at, va, size);
      }
      if !ok {
        return ErrInvalid;
      }
      live := live - {Guarded(va, size)};
      liveCount := if liveCount == 0 then TWO32 - 1 else liveCount - 1;
      status := Ok;
    }
  }

  /** Putting a range back, as an edit of the table. */
  lemma PutBackCases(free: seq<Extent>, at: nat, start: nat, stop: nat)
    requires at <= |free|
    ensures var left, right := at > 0 && free[at - 1].end == start, at < |free| && free[at].start == stop;
            PutBack(free, at, start, stop) ==
            if left && right then free[..at - 1] + [Extent(free[at - 1].start, free[at].end)] + free[at + 1..]
            else if left then free[at - 1 := Extent(free[at - 1].start, stop)]
            else if right then free[at := Extent(start, free[at].end)]
            else free[..at] + [Extent(start, stop)] + free[at..]
  {
  }

  lemma PutBackAll(free: seq<Extent>, at: nat, start: nat, stop: nat)
    requires Separate(free) && Between(free, at, start, stop)
    ensures Separate(PutBack(free, at, start, stop))
    ensures forall a: nat :: FreeAt(PutBack(free, at, start, stop), a) <==> FreeAt(free, a) || start <= a < stop
  {
    hide PutBack, FreeAt, Separate;
    PutBackSeparate(free, at, start, stop);
    forall a: nat ensures FreeAt(PutBack(free, at, start, stop), a) <==> FreeAt(free, a) || start <= a < stop {
      PutBackAt(free, at, start, stop, a);
    }
  }

  lemma StillLive(base: nat, end: nat, free: seq<Extent>, live: set<Extent>, va: nat, size: nat)
    requires end < TWO64
    ensures Partition(base, end, free, live) && IsLive(live, va, size) ==> !Refused(base, end, free, va, size)
  {
    if Partition(base, end, free, live) && IsLive(live, va, size) {
      LiveNotRefused(base, end, free, live, va, size);
    }
  }

  /** A live reservation finds room, and the partition is kept. */
  lemma LiveFreed(base: nat, end: nat, free: seq<Extent>, live: set<Extent>, at: nat, va: nat, size: nat)
    requires Partition(base, end, free, live) && end < TWO64 && IsLive(live, va, size) && |live| < MAX_EXTENTS
    requires at == Slot(free, va - GUARD) && Between(free, at, va - GUARD, Wrap(va + size + GUARD))
    ensures !NoRoom(free, va - GUARD, Wrap(va + size + GUARD)) && Guarded(va, size) in live
    ensures Partition(base, end, PutBack(free, at, va - GUARD, Wrap(va + size + GUARD)), live - {Guarded(va, size)})
  {
    hide Partition, Slot;
    var x := Guarded(va, size);
    LiveInside(base, end, free, live, x);
    PutBackPartition(base, end, free, live, at, x);
    FewExtents(base, end, PutBack(free, at, x.start, x.end), live - {x});
  }

  // ----- what the checks let through -----

  /** Of a range that lies in the space, freeing is accepted exactly when every address of it is reserved. */
  lemma AcceptedExactly(base: nat, end: nat, free: seq<Extent>, live: set<Extent>, va: nat, size: nat)
    requires Partition(base, end, free, live) && end < TWO64 && va < TWO64 && size < TWO64
    requires size > 0 && size % PAGE == 0 && GUARD <= va && base <= va - GUARD && va <= Wrap(va + size + GUARD) <= end
    ensures !Refused(base, end, free, va, size) <==>
            forall a: nat | va - GUARD <= a < Wrap(va + size + GUARD) :: LiveAt(live, a)
  {
    var start, stop := va - GUARD, Wrap(va + size + GUARD);
    if Overlaps(free, start, stop) {
      var i :| 0 <= i < |free| && free[i].start < stop && start < free[i].end;
      var a := if free[i].start < start then start else free[i].start;
      assert Holds(free[i], a);
      assert FreeAt(free, a) && !LiveAt(live, a);
    } else {
      forall a: nat | start <= a < stop ensures LiveAt(live, a) {
        NotFreeInside(free, start, stop, a);
      }
    }
  }

  lemma NotFreeInside(free: seq<Extent>, start: nat, stop: nat, a: nat)
    requires !Overlaps(free, start, stop) && start <= a < stop
    ensures !FreeAt(free, a)
  {
  }

  /** So an accepted free keeps the partition exactly when the range is one live reservation: any other range
      makes addresses free that are still reserved. */
  lemma FreeKeepsPartition(base: nat, end: nat, free: seq<Extent>, live: set<Extent>, va: nat, size: nat)
    requires Partition(base, end, free, live) && end < TWO64 && va < TWO64 && size < TWO64
    requires !Refused(base, end, free, va, size)
    ensures var start, stop := va - GUARD, Wrap(va + size + GUARD);
            Partition(base, end, PutBack(free, Slot(free, start), start, stop), live - {Guarded(va, size)})
            <==> IsLive(live, va, size)
  {
    hide Partition, Slot, PutBack, Overlaps;
    var start, stop := va - GUARD, Wrap(va + size + GUARD);
    var at, x := Slot(free, start), Guarded(va, size);
    PartitionSeparate(base, end, free, live);
    NeighboursDecide(free, at, start, stop);
    if IsLive(live, va, size) {
      LiveInside(base, end, free, live, x);
      PutBackPartition(base, end, free, live, at, x);
    } else {
      AcceptedExactly(base, end, free, live, va, size);
      PutBackAt(free, at, start, stop, start);
      assert live - {x} == live;
      NotBoth(base, end, PutBack(free, at, start, stop), live, start);
    }
  }

  lemma PartitionSeparate(base: nat, end: nat, free: seq<Extent>, live: set<Extent>)
    requires Partition(base, end, free, live)
    ensures Separate(free)
  {
  }

  lemma NotBoth(base: nat, end: nat, free: seq<Extent>, live: set<Extent>, a: nat)
    requires FreeAt(free, a) && LiveAt(live, a)
    ensures !Partition(base, end, free, live)
  {
  }

  /** The size the wrap test misses: wherever the page below `va` is reserved the call is accepted, frees just
      that page, and is no reservation's free. */
  lemma WrappedFree(base: nat, end: nat, free: seq<Extent>, live: set<Extent>, va: nat)
    requires Partition(base, end, free, live) && end < TWO64 && base + GUARD <= va <= end
    ensures Wrap(va + (TWO64 - PAGE) + GUARD) == va && !IsLive(live, va, TWO64 - PAGE)
    ensures !Refused(base, end, free, va, TWO64 - PAGE) <==> forall a: nat | va - GUARD <= a < va :: LiveAt(live, a)
  {
    assert va + (TWO64 - PAGE) + GUARD == va + TWO64;
    if Guarded(va, TWO64 - PAGE) in live {
      LiveInside(base, end, free, live, Guarded(va, TWO64 - PAGE));
    }
    AcceptedExactly(base, end, free, live, va, TWO64 - PAGE);
  }

  ghost predicate IsLive(live: set<Extent>, va: nat, size: nat) {
    va >= GUARD && size > 0 && size % PAGE == 0 && Guarded(va, size) in live
  }

  /** Freeing a live reservation meets none of the reasons to refuse. */
  lemma LiveNotRefused(base: nat, end: nat, free: seq<Extent>, live: set<Extent>, va: nat, size: nat)
    requires Partition(base, end, free, live) && end < TWO64 && IsLive(live, va, size)
    ensures !Refused(base, end, free, va, size)
  {
    var x := Guarded(va, size);
    LiveInside(base, end, free, live, x);
    forall i | 0 <= i < |free| ensures !(free[i].start < x.end && x.start < free[i].end) {
      if free[i].start < x.end && x.start < free[i].end {
        var a := if x.start <= free[i].start then free[i].start else x.start;
        SharedAddress(free, live, i, x, a);
      }
    }
  }

  lemma SharedAddress(free: seq<Extent>, live: set<Extent>, i: nat, x: Extent, a: nat)
    requires i < |free| && Holds(free[i], a) && x in live && Holds(x, a)
    ensures FreeAt(free, a) && LiveAt(live, a)
  {
  }

  ghost predicate FirstFit(free: seq<Extent>, start: nat, need: nat) {
    exists i | 0 <= i < |free| ::
      && free[i].start == start && free[i].end - start >= need
      && forall k | 0 <= k < i :: free[k].end - free[k].start < need
  }

  lemma Inserted(was: seq<Extent>, now: seq<Extent>, i: nat, x: Extent)
    requires i <= |was| && |now| == |was| + 1 && now[i] == x
    requires forall k | 0 <= k < i :: now[k] == was[k]
    requires forall k | i <= k < |was| :: now[k + 1] == was[k]
    ensures now == was[..i] + [x] + was[i..]
  {
    forall k | i < k < |now| ensures now[k] == was[k - 1] {
      assert now[(k - 1) + 1] == was[k - 1];
    }
  }

  lemma WholeSpace(base: nat, end: nat)
    requires base < end
    ensures Partition(base, end, [Extent(base, end)], {})
  {
    forall a: nat ensures FreeAt([Extent(base, end)], a) <==> base <= a < end {
      FreeAtOne(Extent(base, end), a);
      FreeAtNone(a);
    }
    forall a: nat ensures !LiveAt({}, a) {
      NoneLive(a);
    }
  }

  /** In a sorted table only the two neighbours of the insertion point can overlap the range. */
  lemma NeighboursDecide(free: seq<Extent>, at: nat, start: nat, stop: nat)
    requires Separate(free) && IsSlot(free, start, at) && start < stop
    ensures Overlaps(free, start, stop) <==>
            (at > 0 && free[at - 1].end > start) || (at < |free| && free[at].start < stop)
  {
    forall k | 0 <= k < at - 1 ensures free[k].end < free[at - 1].start {
    }
    forall k | at < k < |free| ensures free[at].end < free[k].start {
    }
    if at > 0 && free[at - 1].end > start {
      assert free[at - 1].start < stop && start < free[at - 1].end;
    }
    if at < |free| && free[at].start < stop {
      assert free[at].start < stop && start < free[at].end;
    }
  }

  lemma NotRefused(base: nat, end: nat, free: seq<Extent>, va: nat, size: nat)
    requires va >= GUARD && size > 0 && size % PAGE == 0 && Wrap(va + size + GUARD) >= va && va - GUARD >= base
             && Wrap(va + size + GUARD) <= end
    requires !Overlaps(free, va - GUARD, Wrap(va + size + GUARD))
    ensures !Refused(base, end, free, va, size)
  {
  }

  lemma LiveInside(base: nat, end: nat, free: seq<Extent>, live: set<Extent>, x: Extent)
    requires Partition(base, end, free, live) && x in live && end < TWO64
    ensures base <= x.start < x.end <= end && Wrap(x.end) == x.end
  {
    assert Holds(x, x.end - 1) && Holds(x, x.start);
    assert LiveAt(live, x.end - 1) && LiveAt(live, x.start);
  }
}
