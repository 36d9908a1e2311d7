/** Boot: scan the map, carve the page array from the top of usable memory, free the rest, reclaim later. */
module PmmInit {
  import opened BuddyBlocks
  import opened FrameStates
  import opened MemoryMap
  import opened Pmm
  import opened PmmFacts
  import opened PmmMap
  import opened PmmState
  import opened Statuses
  import opened Words

  // ----- the bump allocator -----

  /** What is left of each range when it is consumed from the top down to its cursor. */
  ghost function Remaining(usable: seq<Span>, cursor: seq<nat>): (r: seq<Span>)
    requires |cursor| == |usable|
    ensures |r| == |usable| && forall i | 0 <= i < |r| :: r[i] == Span(usable[i].start, cursor[i])
  {
    if usable == [] then []
    else
      var n := |usable| - 1;
      Remaining(usable[..n], cursor[..n]) + [Span(usable[n].start, cursor[n])]
  }

  class Early {
    const usable: seq<Span>
    var cursor: seq<nat>
    var used: nat

    ghost predicate Valid()
      reads this
    {
      && |cursor| == |usable| && Ascending(usable)
      && (forall i | 0 <= i < |usable| :: usable[i].start <= cursor[i] <= usable[i].end)
      && Frames(Remaining(usable, cursor)) + used == Frames(usable)
    }

    constructor (usable: seq<Span>)
      requires Ascending(usable)
      ensures Valid() && this.usable == usable && used == 0
    {
      this.usable := usable;
      cursor := seq(|usable|, i requires 0 <= i < |usable| => usable[i].end);
      used := 0;
      new;
      assert Remaining(usable, cursor) == usable;
    }

    /** Takes frames from the top of the highest range with room. */
    method AllocPages(count: nat) returns (status: Status, frame: nat)
      requires Valid()
      modifies this
      ensures Valid()
      ensures status == Ok <==> exists i | 0 <= i < |usable| :: old(cursor)[i] - usable[i].start >= count
      ensures status == Ok || status == ErrNoMemory
      ensures status != Ok ==> cursor == old(cursor) && used == old(used)
      ensures status == Ok ==> used == old(used) + count
      ensures status == Ok ==> exists i | 0 <= i < |usable| ::
                                 && usable[i].start <= frame == old(cursor)[i] - count
                                    && cursor == old(cursor)[i := frame]
                                 && forall j | i < j < |usable| :: old(cursor)[j] - usable[j].start < count
    {
      hide Remaining, Frames;
      frame := 0;
      var i := |usable|;
      while i > 0
        invariant 0 <= i <= |usable| && cursor == old(cursor) && used == old(used)
        invariant forall j | i <= j < |usable| :: cursor[j] - usable[j].start < count
      {
        i := i - 1;
        if cursor[i] - usable[i].start >= count {
          frame := cursor[i] - count;
          FramesUpdate(Remaining(usable, cursor), i, Span(usable[i].start, frame));
          cursor := cursor[i := frame];
          assert Remaining(usable, cursor) == Remaining(usable, old(cursor))[i := Span(usable[i].start, frame)];
          used := used + count;
          return Ok, frame;
        }
      }
      status := ErrNoMemory;
    }

    /** Whether the bump allocator has handed the frame out. */
    method WasAllocated(p: nat) returns (yes: bool)
      requires Valid()
      ensures yes <==> InSpans(usable, p) && !InSpans(Remaining(usable, cursor), p)
    {
      hide Remaining, Frames;
      ghost var left := Remaining(usable, cursor);
      var i := 0;
      while i < |usable|
        invariant 0 <= i <= |usable|
        invariant forall j | 0 <= j < i :: !(cursor[j] <= p < usable[j].end)
      {
        if cursor[i] <= p < usable[i].end {
          assert usable[i].start <= p < usable[i].end;
          forall j | 0 <= j < |left| ensures !(left[j].start <= p < left[j].end) {
            assert j < i ==> usable[j].end <= usable[i].start;
            assert i < j ==> usable[i].end <= usable[j].start;
          }
          return true;
        }
        i := i + 1;
      }
      if InSpans(usable, p) {
        ghost var k :| 0 <= k < |usable| && usable[k].start <= p < usable[k].end;
        assert left[k].start <= p < left[k].end;
      }
      return false;
    }
  }

  lemma {:induction false} FramesUpdate(spans: seq<Span>, i: nat, s: Span)
    requires i < |spans|
    ensures Frames(spans[i := s]) == Frames(spans) - (spans[i].end - spans[i].start) + (s.end - s.start)
  {
    var n := |spans| - 1;
    if i < n {
      FramesUpdate(spans[..n], i, s);
      assert spans[i := s][..n] == spans[..n][i := s];
    } else {
      assert spans[i := s][..n] == spans[..n];
    }
  }

  /** A single frame can be had as long as any is left. */
  lemma {:induction false} SomeLeft(spans: seq<Span>)
    requires forall i | 0 <= i < |spans| :: spans[i].start <= spans[i].end
    ensures Frames(spans) >= 0
    ensures Frames(spans) > 0 <==> exists i | 0 <= i < |spans| :: spans[i].end - spans[i].start >= 1
  {
    if spans == [] {
    } else {
      var n := |spans| - 1;
      SomeLeft(spans[..n]);
      if exists i | 0 <= i < |spans[..n]| :: spans[..n][i].end - spans[..n][i].start >= 1 {
        var i :| 0 <= i < |spans[..n]| && spans[..n][i].end - spans[..n][i].start >= 1;
        assert spans[i].end - spans[i].start >= 1;
      }
      if exists i | 0 <= i < |spans| :: spans[i].end - spans[i].start >= 1 {
        var i :| 0 <= i < |spans| && spans[i].end - spans[i].start >= 1;
        assert i < n ==> spans[..n][i].end - spans[..n][i].start >= 1;
      }
    }
  }

  // ----- reclaiming -----

  /** None of the ranges' frames is managed yet, and all have pages. */
  ghost predicate Pending(managed: set<nat>, keys: set<nat>, ranges: seq<Region>) {
    forall i: nat, p: nat | i < |ranges| && Within(ranges[i], p) :: p in keys && p !in managed
  }

  ghost predicate InRanges(ranges: seq<Region>, p: nat) {
    exists i | 0 <= i < |ranges| :: Within(ranges[i], p)
  }

  /** The kernel's memory state: what the scan found, the page allocator, and what was reclaimed. */
  class Memory {
    const scan: Scan
    const earlyUsed: nat
    const pmm: Allocator
    var reclaimed: nat
    var loaderDone: bool
    var acpiDone: bool

    constructor (scan: Scan, earlyUsed: nat, pmm: Allocator)
      ensures this.scan == scan && this.earlyUsed == earlyUsed && this.pmm == pmm
      ensures reclaimed == 0 && !loaderDone && !acpiDone
    {
      this.scan, this.earlyUsed, this.pmm := scan, earlyUsed, pmm;
      reclaimed, loaderDone, acpiDone := 0, false, false;
    }

    ghost predicate Valid()
      reads this, pmm
    {
      && pmm.Valid() && ReclaimOk(scan) && Balanced()
      && (!loaderDone ==> Pending(Managed(pmm.pages), pmm.pages.Keys, scan.loader))
      && (!acpiDone ==> Pending(Managed(pmm.pages), pmm.pages.Keys, scan.acpi))
    }

    /** Usable plus reclaimed memory is managed, used early, withheld or out of reach: no frame is lost. */
    ghost predicate Balanced()
      reads this, pmm
    {
      && |scan.typePages| == FRAMEBUFFER + 1
      && |Managed(pmm.pages)| + earlyUsed + scan.low + scan.unmapped == scan.typePages[USABLE] + reclaimed
    }

    /** The allocator's own check at boot and on request. */
    method CheckMeminfo() returns (ok: bool)
      requires Valid()
      ensures ok
    {
      var managed, free, inUse := pmm.GetStats();
      ok := managed + earlyUsed + scan.low + scan.unmapped == scan.typePages[USABLE] + reclaimed;
    }

    method AllocPages(order: nat, flags: Flags) returns (status: Status, pfn: nat)
      requires Valid()
      modifies pmm
      ensures Valid()
      ensures status == Ok ==> Granted(old(pmm.owners), pmm.owners, pfn, order)
      ensures status != Ok ==> pmm.owners == old(pmm.owners) && pmm.pages == old(pmm.pages)
    {
      hide AtRest, Managed, Granted, Pending, ReclaimOk;
      status, pfn := pmm.AllocPages(order, flags);
      assert pmm.pages.Keys == old(pmm.pages.Keys);
    }

    method FreePages(pfn: nat, order: nat) returns (verdict: Verdict)
      requires Valid()
      modifies pmm
      ensures Valid()
      ensures verdict == FreeVerdict(old(pmm.owners), old(pmm.pages), pfn, order)
      ensures verdict == Freeable ==> Granted(pmm.owners, old(pmm.owners), pfn, order)
      ensures verdict != Freeable ==> pmm.owners == old(pmm.owners) && pmm.pages == old(pmm.pages)
    {
      hide AtRest, Managed, Granted, Pending, ReclaimOk, FreeVerdict;
      verdict := pmm.FreePages(pfn, order);
      assert pmm.pages.Keys == old(pmm.pages.Keys);
    }

    /** Returns the loader's memory. The bound it checks afterwards always holds. */
    method ReclaimLoader()
      requires Valid() && !loaderDone
      modifies this`reclaimed, this`loaderDone, pmm
      ensures Valid() && loaderDone && acpiDone == old(acpiDone)
      ensures forall p: nat :: p in Managed(pmm.pages) <==> p in old(Managed(pmm.pages)) || InRanges(scan.loader, p)
    {
      hide AtRest, Managed, Pending, SumPages, InRanges;
      var count := ReclaimRanges(scan.loader);
      assert count <= scan.typePages[LOADER_RECLAIM];
      if !acpiDone {
        OthersPending(scan.loader, scan.acpi, old(Managed(pmm.pages)), Managed(pmm.pages), pmm.pages.Keys);
      }
      reclaimed := reclaimed + count;
      loaderDone := true;
    }

    /** Returns the firmware's ACPI tables. */
    method ReclaimAcpi()
      requires Valid() && !acpiDone
      modifies this`reclaimed, this`acpiDone, pmm
      ensures Valid() && acpiDone && loaderDone == old(loaderDone)
      ensures forall p: nat :: p in Managed(pmm.pages) <==> p in old(Managed(pmm.pages)) || InRanges(scan.acpi, p)
    {
      hide AtRest, Managed, Pending, SumPages, InRanges;
      var count := ReclaimRanges(scan.acpi);
      assert count <= scan.typePages[ACPI_RECLAIM];
      if !loaderDone {
        OthersPending(scan.acpi, scan.loader, old(Managed(pmm.pages)), Managed(pmm.pages), pmm.pages.Keys);
      }
      reclaimed := reclaimed + count;
      acpiDone := true;
    }

    /** Frees every recorded range, clipped to the allocator's window; none of its checks can fail. */
    method ReclaimRanges(ranges: seq<Region>) returns (count: nat)
      requires pmm.Valid() && Ordered(ranges) && (forall i | 0 <= i < |ranges| :: Scannable(ranges[i]))
      requires Pending(Managed(pmm.pages), pmm.pages.Keys, ranges)
      modifies pmm
      ensures pmm.Valid() && count <= SumPages(ranges) && |Managed(pmm.pages)| == old(|Managed(pmm.pages)|) + count
      ensures pmm.pages.Keys == old(pmm.pages.Keys)
      ensures forall p: nat :: p in Managed(pmm.pages) <==> p in old(Managed(pmm.pages)) || InRanges(ranges, p)
    {
      hide Managed, SumPages, Clipped, InRanges, AtRest, RangeReserved, Pending;
      count := 0;
      var i := 0;
      NoRanges(ranges, Managed(pmm.pages));
      while i < |ranges|
        invariant 0 <= i <= |ranges| && pmm.Valid() && count <= SumPages(ranges[..i])
        invariant |Managed(pmm.pages)| == old(|Managed(pmm.pages)|) + count && pmm.pages.Keys == old(pmm.pages.Keys)
        invariant forall p: nat :: p in Managed(pmm.pages) <==> p in old(Managed(pmm.pages)) || InRanges(ranges[..i], p)
      {
        var s := Clipped(ranges[i]);
        MoreRanges(ranges, i);
        if s.start < s.end {
          StillPending(ranges, i, old(Managed(pmm.pages)), pmm.pages, pmm.owners, pmm.zones);
          var fine := pmm.CheckReserved(s.start, s.end);
          assert fine;
          FreeFrames(pmm, s.start, s.end);
          count := count + (s.end - s.start);
        }
        i := i + 1;
      }
      assert ranges[..i] == ranges;
    }
  }

  lemma OthersPending(ranges: seq<Region>, others: seq<Region>, was: set<nat>, managed: set<nat>, keys: set<nat>)
    requires Pending(was, keys, others) && forall p: nat :: p in managed <==> p in was || InRanges(ranges, p)
    requires forall p: nat :: !(InRanges(ranges, p) && InRanges(others, p))
    ensures Pending(managed, keys, others)
  {
    hide Within;
    forall i: nat, p: nat | i < |others| && Within(others[i], p) ensures p in keys && p !in managed {
      assert InRanges(others, p);
    }
  }

  // ----- initialization -----

  /** Takes `count` single frames from the bump allocator, for the page array and its tables. */
  method EarlyPhase(usable: seq<Span>, count: nat) returns (ok: bool, cursor: seq<nat>)
    requires Ascending(usable)
    ensures ok <==> count <= Frames(usable)
    ensures ok ==> Left(usable, cursor) && Frames(Remaining(usable, cursor)) + count == Frames(usable)
  {
    hide Frames, Remaining;
    var early := new Early(usable);
    var n := 0;
    while n < count
      invariant 0 <= n <= count && early.Valid() && early.used == n && fresh(early) && early.usable == usable
    {
      LeftOver(early.usable, early.cursor);
      var st, frame := early.AllocPages(1);
      if st != Ok {
        return false, [];
      }
      n := n + 1;
    }
    LeftOver(early.usable, early.cursor);
    return true, early.cursor;
  }

  ghost predicate Left(usable: seq<Span>, cursor: seq<nat>) {
    |cursor| == |usable| && forall i | 0 <= i < |usable| :: usable[i].start <= cursor[i] <= usable[i].end
  }

  /** Frees a run of frames that are known to be reserved: the call cannot fail. */
  method FreeFrames(pmm: Allocator, start: nat, end: nat)
    requires pmm.Valid() && start <= end && RangeReserved(pmm.owners, pmm.pages, start, end)
    modifies pmm
    ensures pmm.Valid() && pmm.owners.alloc == old(pmm.owners.alloc) && pmm.owners.cached == old(pmm.owners.cached)
    ensures |Managed(pmm.pages)| == old(|Managed(pmm.pages)|) + end - start && pmm.pages.Keys == old(pmm.pages.Keys)
    ensures forall p: nat :: p in Managed(pmm.pages) <==> p in old(Managed(pmm.pages)) || start <= p < end
  {
    hide AtRest, Managed, RangeReserved, Covered;
    BytesOfFrames(start, end);
    ghost var before := Managed(pmm.pages);
    var status := pmm.AddFreeRange(start * FRAME, (end - start) * FRAME);
    assert status == Ok;
    assert pmm.pages.Keys == old(pmm.pages.Keys);
    FrameRangeSize(start, end);
    AddSizes(before, FrameRange(start, end), Managed(pmm.pages));
    RangeMembers(start, end);
  }

  /** Frees what the bump allocator left of every usable range. */
  method FreeRest(ghost regions: seq<Region>, scan: Scan, cursor: seq<nat>) returns (pmm: Allocator)
    requires SpansOk(scan.spans) && Ascending(scan.usable) && Left(scan.usable, cursor)
    requires forall p: nat :: InSpans(scan.spans, p) <==> Backed(regions, p)
    requires forall i | 0 <= i < |scan.usable| :: FromUsable(regions, scan.usable[i])
    ensures fresh(pmm) && pmm.Valid() && pmm.spans == scan.spans && pmm.owners.alloc == {} && pmm.owners.cached == {}
    ensures var left := Remaining(scan.usable, cursor);
            |Managed(pmm.pages)| == Frames(left) && forall p: nat :: p in Managed(pmm.pages) <==> InSpans(left, p)
  {
    hide Frames, Remaining, AtRest, Managed, FromUsable, RangeReserved, Backed, InSpans;
    pmm := new Allocator(scan.spans);
    ghost var left := Remaining(scan.usable, cursor);
    var i := 0;
    Nothing(left, pmm.pages, pmm.owners, pmm.zones);
    while i < |scan.usable|
      invariant 0 <= i <= |scan.usable| && pmm.Valid() && fresh(pmm) && pmm.spans == scan.spans
      invariant pmm.owners.alloc == {} && pmm.owners.cached == {}
      invariant Frames(left[..i]) == |Managed(pmm.pages)| && forall p: nat :: p in Managed(pmm.pages) <==>
                InSpans(left[..i], p)
    {
      var start, end := scan.usable[i].start, cursor[i];
      assert left[i] == Span(start, end);
      MoreSpans(left, i);
      ghost var before := Managed(pmm.pages);
      if start < end {
        FreshRange(regions, scan, left, i, pmm.pages, pmm.owners, pmm.zones);
        FreeFrames(pmm, start, end);
      }
      forall p: nat ensures p in Managed(pmm.pages) <==> InSpans(left[..i + 1], p) {
        assert InSpans(left[..i + 1], p) <==> InSpans(left[..i], p) || start <= p < end;
        assert p in Managed(pmm.pages) <==> p in before || start <= p < end;
      }
      i := i + 1;
    }
    assert left[..i] == left;
  }

  /** Boots the allocator. `earlyCount` is however many frames the page array and its tables take. The result
      is null where the kernel panics: the map does not fit its tables, nothing is managed, or memory runs out. */
  method Init(regions: seq<Region>, earlyCount: nat) returns (mem: Memory?)
    requires Accepted(regions)
    ensures mem == null <==> !Fits(regions) || SpansOf(regions) == [] || earlyCount > Frames(UsableOf(regions))
    ensures mem != null ==> fresh(mem) && fresh(mem.pmm) && mem.Valid()
    ensures mem != null ==>
            Scanned(regions, mem.scan) && mem.earlyUsed == earlyCount && mem.reclaimed == 0 && !mem.loaderDone
              && !mem.acpiDone
    ensures mem != null ==> mem.pmm.owners.alloc == {} && mem.pmm.owners.cached == {}
  {
    hide SpansOf, UsableOf, Frames, Remaining, AtRest, Managed, Scanned, Fits, Pending, ReclaimOk, FromUsable, Backed,
         InSpans, Accepted;
    mem := null;
    var status, scan := MapScan(regions);
    ScanFacts(regions, scan, status);
    if status != Ok || scan.spans == [] {
      return;
    }
    var ok, cursor := EarlyPhase(scan.usable, earlyCount);
    if !ok {
      return;
    }
    var pmm := FreeRest(regions, scan, cursor);
    NotYet(regions, scan, Remaining(scan.usable, cursor), pmm.pages, Managed(pmm.pages));
    mem := new Memory(scan, earlyCount, pmm);
  }

  // ----- what reclaiming relies on -----

  ghost predicate ReclaimOk(m: Scan) {
    && |m.typePages| == FRAMEBUFFER + 1
    && Ordered(m.loader) && Ordered(m.acpi)
    && (forall i | 0 <= i < |m.loader| :: Scannable(m.loader[i]))
    && (forall i | 0 <= i < |m.acpi| :: Scannable(m.acpi[i]))
    && (forall p: nat :: !(InRanges(m.loader, p) && InRanges(m.acpi, p)))
    && SumPages(m.loader) <= m.typePages[LOADER_RECLAIM] && SumPages(m.acpi) <= m.typePages[ACPI_RECLAIM]
  }

  lemma NoRanges(ranges: seq<Region>, managed: set<nat>)
    ensures SumPages(ranges[..0]) == 0 && forall p: nat :: !InRanges(ranges[..0], p)
  {
  }

  lemma MoreRanges(ranges: seq<Region>, i: nat)
    requires i < |ranges| && Scannable(ranges[i])
    ensures forall p: nat :: InRanges(ranges[..i + 1], p) <==> InRanges(ranges[..i], p) || Within(ranges[i], p)
    ensures SumPages(ranges[..i + 1]) == SumPages(ranges[..i]) + ranges[i].length / PAGE
    ensures Clipped(ranges[i]).start < Clipped(ranges[i]).end ==>
            Clipped(ranges[i]).end - Clipped(ranges[i]).start <= ranges[i].length / PAGE
  {
    hide Within;
    var m, n := ranges[..i], ranges[..i + 1];
    assert n[..i] == m && n[i] == ranges[i];
    PageCount(ranges[i]);
    forall p: nat ensures InRanges(n, p) <==> InRanges(m, p) || Within(ranges[i], p) {
      if InRanges(m, p) {
        var k :| 0 <= k < |m| && Within(m[k], p);
        assert n[k] == m[k];
      }
      if InRanges(n, p) {
        var k :| 0 <= k < |n| && Within(n[k], p);
        assert k < i ==> m[k] == n[k];
      }
    }
  }

  /** Earlier ranges did not touch this one, so its frames are still reserved. */
  lemma StillPending(ranges: seq<Region>, i: nat, was: set<nat>, pages: map<nat, Page>, o: Owners, zones: seq<Zone>)
    requires Ordered(ranges) && i < |ranges| && Pending(was, pages.Keys, ranges) && AtRest(o, pages, zones)
    requires forall p: nat :: p in Managed(pages) <==> p in was || InRanges(ranges[..i], p)
    ensures RangeReserved(o, pages, Clipped(ranges[i]).start, Clipped(ranges[i]).end)
  {
    hide Managed, AtRest, Covered, Available, Clipped;
    var s := Clipped(ranges[i]);
    forall p: nat | s.start <= p < s.end ensures p in pages && !Available(o, p) && !Covered(o.alloc, p) {
      assert Within(ranges[i], p);
      if InRanges(ranges[..i], p) {
        var k :| 0 <= k < |ranges[..i]| && Within(ranges[..i][k], p);
        FrameInOne(ranges, k, i, p);
      }
      ManagedOwned(o, pages, zones, p);
    }
  }

  lemma BytesOfFrames(start: nat, end: nat)
    requires start <= end
    ensures start * FRAME % FRAME == 0 == (end - start) * FRAME % FRAME
    ensures start * FRAME / FRAME == start && (start * FRAME + (end - start) * FRAME) / FRAME == end
  {
  }

  // ----- what initialization relies on -----

  lemma ScanFacts(regions: seq<Region>, m: Scan, status: Status)
    requires Accepted(regions) && (status == Ok ==> Scanned(regions, m))
    ensures Ordered(regions)
    ensures status == Ok ==>
            SpansOk(m.spans) && Ascending(m.usable) && m.spans == SpansOf(regions) && m.usable == UsableOf(regions)
    ensures status == Ok ==> forall p: nat :: InSpans(m.spans, p) <==> Backed(regions, p)
    ensures status == Ok ==> forall i | 0 <= i < |m.usable| :: FromUsable(regions, m.usable[i])
    ensures status == Ok ==> |m.typePages| == FRAMEBUFFER + 1
  {
    if status == Ok {
      forall i | 0 <= i < |regions| ensures End(regions[i]) <= TWO64 / PAGE {
        assert Acceptable(regions[i]);
      }
      SpansBacked(regions, TWO64 / PAGE);
      UsableAscends(regions, TWO64 / PAGE);
    }
  }

  lemma LeftOver(usable: seq<Span>, cursor: seq<nat>)
    requires |cursor| == |usable| && forall i | 0 <= i < |usable| :: usable[i].start <= cursor[i]
    ensures Frames(Remaining(usable, cursor)) >= 0
    ensures Frames(Remaining(usable, cursor)) > 0 <==> exists i | 0 <= i < |usable| :: cursor[i] - usable[i].start >= 1
  {
    hide Remaining, Frames;
    var left := Remaining(usable, cursor);
    SomeLeft(left);
    if exists i | 0 <= i < |usable| :: cursor[i] - usable[i].start >= 1 {
      var i :| 0 <= i < |usable| && cursor[i] - usable[i].start >= 1;
      assert left[i].end - left[i].start >= 1;
    }
    if exists i | 0 <= i < |left| :: left[i].end - left[i].start >= 1 {
      var i :| 0 <= i < |left| && left[i].end - left[i].start >= 1;
      assert cursor[i] - usable[i].start >= 1;
    }
  }

  lemma Nothing(left: seq<Span>, pages: map<nat, Page>, o: Owners, zones: seq<Zone>)
    requires AtRest(o, pages, zones) && o.free == {} && o.alloc == {} && o.cached == {}
    ensures Managed(pages) == {} && Frames(left[..0]) == 0 && forall p: nat :: !InSpans(left[..0], p)
  {
    hide AtRest, Managed;
    ManagedHasPages(pages);
    forall p | p in pages ensures p !in Managed(pages) {
      ManagedOwned(o, pages, zones, p);
    }
  }

  lemma MoreSpans(spans: seq<Span>, i: nat)
    requires i < |spans|
    ensures Frames(spans[..i + 1]) == Frames(spans[..i]) + spans[i].end - spans[i].start
    ensures forall p: nat :: InSpans(spans[..i + 1], p) <==>
            InSpans(spans[..i], p) || spans[i].start <= p < spans[i].end
  {
    var m, n := spans[..i], spans[..i + 1];
    assert n[..i] == m && n[i] == spans[i];
    forall p: nat ensures InSpans(n, p) <==> InSpans(m, p) || spans[i].start <= p < spans[i].end {
      if InSpans(m, p) {
        var k :| 0 <= k < |m| && m[k].start <= p < m[k].end;
        assert n[k].start <= p < n[k].end;
      }
      if InSpans(n, p) {
        var k :| 0 <= k < |n| && n[k].start <= p < n[k].end;
        assert k < i ==> m[k].start <= p < m[k].end;
      }
    }
  }

  lemma AddSizes(before: set<nat>, added: set<nat>, after: set<nat>)
    requires after == before + added && before !! added
    ensures |after| == |before| + |added|
  {
  }

  lemma RangeMembers(start: nat, end: nat)
    ensures forall p: nat :: p in FrameRange(start, end) <==> start <= p < end
  {
  }

  /** What is left of a usable range has pages and no owner until it is freed. */
  lemma FreshRange(regions: seq<Region>, m: Scan, left: seq<Span>, i: nat, pages: map<nat, Page>, o: Owners,
      zones: seq<Zone>)
    requires AtRest(o, pages, zones) && o.alloc == {} && o.cached == {}
    requires forall p: nat :: p in pages <==> InSpans(m.spans, p)
    requires forall p: nat :: InSpans(m.spans, p) <==> Backed(regions, p)
    requires |left| == |m.usable| && i < |left| && Ascending(m.usable) && FromUsable(regions, m.usable[i])
    requires forall p: nat :: p in Managed(pages) <==> InSpans(left[..i], p)
    requires forall j | 0 <= j < |left| :: left[j].start == m.usable[j].start && left[j].end <= m.usable[j].end
    ensures RangeReserved(o, pages, left[i].start, left[i].end)
  {
    hide AtRest, Managed, Covered, Backed;
    forall p: nat | left[i].start <= p < left[i].end ensures p in pages && !Available(o, p) && !Covered(o.alloc, p) {
      UsableHasPage(regions, m.usable[i], p);
      NotEarlier(m.usable, left, i, p);
      ManagedOwned(o, pages, zones, p);
    }
  }

  lemma UsableHasPage(regions: seq<Region>, s: Span, p: nat)
    requires FromUsable(regions, s) && s.start <= p < s.end
    ensures Backed(regions, p)
  {
    var k :| 0 <= k < |regions| && regions[k].kind == USABLE && Clipped(regions[k]) == s;
    WithinBacked(regions, k, p);
  }

  lemma NotEarlier(usable: seq<Span>, left: seq<Span>, i: nat, p: nat)
    requires |left| == |usable| && i < |left| && Ascending(usable) && left[i].start <= p
    requires forall j | 0 <= j < |left| :: left[j].start == usable[j].start && left[j].end <= usable[j].end
    ensures !InSpans(left[..i], p)
  {
    forall k | 0 <= k < i ensures !(left[..i][k].start <= p < left[..i][k].end) {
      assert left[..i][k] == left[k];
      assert usable[k].end <= usable[i].start;
    }
  }

  /** After boot only usable frames are managed, so the ranges to reclaim are all pending. */
  lemma NotYet(regions: seq<Region>, m: Scan, left: seq<Span>, pages: map<nat, Page>, managed: set<nat>)
    requires Accepted(regions) && Fits(regions) && Scanned(regions, m) && Ordered(regions)
    requires forall p: nat :: p in pages <==> InSpans(m.spans, p)
    requires forall p: nat :: InSpans(m.spans, p) <==> Backed(regions, p)
    requires forall p: nat :: p in managed <==> InSpans(left, p)
    requires |left| == |m.usable| && forall i | 0 <= i < |m.usable| :: FromUsable(regions, m.usable[i])
    requires forall j | 0 <= j < |left| :: left[j].start == m.usable[j].start && left[j].end <= m.usable[j].end
    ensures ReclaimOk(m) && Pending(managed, pages.Keys, m.loader) && Pending(managed, pages.Keys, m.acpi)
  {
    hide SpansOf, UsableOf, OfKind, PagesOf, Backed, LowOf, HighOf, Within, SumPages;
    forall p: nat | p in managed ensures InKind(regions, USABLE, p) {
      var j :| 0 <= j < |left| && left[j].start <= p < left[j].end;
      UsableInKind(regions, m.usable[j], p);
    }
    KindFacts(regions, LOADER_RECLAIM);
    KindFacts(regions, ACPI_RECLAIM);
    TakeFacts(regions);
    forall p: nat ensures !(InRanges(m.loader, p) && InRanges(m.acpi, p)) {
      if InRanges(m.loader, p) && InRanges(m.acpi, p) {
        OneKind(regions, LOADER_RECLAIM, ACPI_RECLAIM, p);
      }
    }
    PendingKind(regions, m.loader, LOADER_RECLAIM, managed, pages.Keys);
    PendingKind(regions, m.acpi, ACPI_RECLAIM, managed, pages.Keys);
  }

  ghost predicate InKind(regions: seq<Region>, kind: nat, p: nat) {
    exists i | 0 <= i < |regions| :: regions[i].kind == kind && Within(regions[i], p)
  }

  lemma UsableInKind(regions: seq<Region>, s: Span, p: nat)
    requires FromUsable(regions, s) && s.start <= p < s.end
    ensures InKind(regions, USABLE, p)
  {
    var k :| 0 <= k < |regions| && regions[k].kind == USABLE && Clipped(regions[k]) == s;
    assert Within(regions[k], p);
  }

  lemma OneKind(regions: seq<Region>, a: nat, b: nat, p: nat)
    requires Ordered(regions) && InKind(regions, a, p) && InKind(regions, b, p)
    ensures a == b
  {
    hide Within;
    var i :| 0 <= i < |regions| && regions[i].kind == a && Within(regions[i], p);
    var j :| 0 <= j < |regions| && regions[j].kind == b && Within(regions[j], p);
    FrameInOne(regions, i, j, p);
  }

  lemma KindFacts(regions: seq<Region>, kind: nat)
    requires Ordered(regions) && Fits(regions)
    ensures var list := OfKind(regions, kind);
            && Ordered(list) && (forall i | 0 <= i < |list| :: Scannable(list[i]))
            && SumPages(list) == PagesOf(regions, kind)
               && (forall p: nat | InRanges(list, p) :: InKind(regions, kind, p))
  {
    hide OfKind, PagesOf, SumPages, Within, UsableOf, SpansOf;
    var list := OfKind(regions, kind);
    OfKindOrdered(regions, kind);
    OfKindSum(regions, kind);
    forall i | 0 <= i < |list| ensures Scannable(list[i]) {
      OfKindFrom(regions, kind, i);
    }
    forall p: nat | InRanges(list, p) ensures InKind(regions, kind, p) {
      var i :| 0 <= i < |list| && Within(list[i], p);
      OfKindFrom(regions, kind, i);
      var k :| 0 <= k < |regions| && regions[k] == list[i];
      assert regions[k].kind == kind && Within(regions[k], p);
    }
  }

  /** The recorded ACPI ranges are the first few of them. */
  lemma TakeFacts(regions: seq<Region>)
    requires Ordered(regions) && Fits(regions)
    ensures var list := Take(OfKind(regions, ACPI_RECLAIM), MAX_RECLAIM);
            && Ordered(list) && (forall i | 0 <= i < |list| :: Scannable(list[i]))
            && (forall p: nat | InRanges(list, p) :: InKind(regions, ACPI_RECLAIM, p))
  {
    hide OfKind, PagesOf, SumPages, Within, UsableOf, SpansOf;
    KindFacts(regions, ACPI_RECLAIM);
    var all := OfKind(regions, ACPI_RECLAIM);
    var list := Take(all, MAX_RECLAIM);
    assert forall i | 0 <= i < |list| :: list[i] == all[i];
    forall p: nat | InRanges(list, p) ensures InKind(regions, ACPI_RECLAIM, p) {
      var i :| 0 <= i < |list| && Within(list[i], p);
      assert Within(all[i], p);
      assert InRanges(all, p);
    }
  }

  lemma PendingKind(regions: seq<Region>, ranges: seq<Region>, kind: nat, managed: set<nat>, keys: set<nat>)
    requires Ordered(regions) && kind != USABLE && IsManaged(kind)
    requires forall p: nat | InRanges(ranges, p) :: InKind(regions, kind, p)
    requires forall p: nat | p in managed :: InKind(regions, USABLE, p)
    requires forall p: nat | Backed(regions, p) :: p in keys
    ensures Pending(managed, keys, ranges)
  {
    hide Within, Backed, IsManaged;
    forall i: nat, p: nat | i < |ranges| && Within(ranges[i], p) ensures p in keys && p !in managed {
      assert InRanges(ranges, p);
      var k :| 0 <= k < |regions| && regions[k].kind == kind && Within(regions[k], p);
      WithinBacked(regions, k, p);
      if p in managed {
        OneKind(regions, USABLE, kind, p);
      }
    }
  }
}
