/** The physical page allocator: two zones of buddy free lists with a cache of single frames in front. */
module Pmm {
  import opened Bits
  import opened BuddyBlocks
  import opened FrameStates
  import opened PmmFacts
  import opened PmmState
  import opened Sequences
  import opened Statuses

  /** The order of the largest block that can start here: aligned, legal, and inside the range. */
  method LargestOrder(p: nat, end: nat) returns (order: nat)
    requires p < end
    ensures order <= MAX_ORDER && Head(BlockAt(p, order)) == p && p + Pow2(order) <= end
    ensures forall k | order < k <= MAX_ORDER :: p + Pow2(k) > end || (p > 0 && TrailingZeros(p) < k)
  {
    hide Shr, Shl;
    order := if p == 0 || TrailingZeros(p) > MAX_ORDER then MAX_ORDER else TrailingZeros(p);
    while Pow2(order) > end - p
      invariant order <= MAX_ORDER && (p > 0 ==> order <= TrailingZeros(p))
      invariant forall k | order < k <= MAX_ORDER :: p + Pow2(k) > end || (p > 0 && TrailingZeros(p) < k)
    {
      order := order - 1;
    }
    if p > 0 {
      TrailingAligned(p, order);
    } else {
      ZeroAligned(order);
    }
  }

  class Allocator {
    const spans: seq<Span>
    var pages: map<nat, Page>
    var zones: seq<Zone>
    ghost var owners: Owners

    ghost predicate Valid()
      reads this
    {
      && SpansOk(spans) && (forall p: nat :: p in pages <==> InSpans(spans, p))
      && AtRest(owners, pages, zones)
    }

    /** Every page starts reserved. */
    constructor (spans: seq<Span>)
      requires SpansOk(spans)
      ensures Valid() && this.spans == spans && owners == Owners({}, {}, {}, {})
    {
      this.spans := spans;
      pages := map p | p in FramesOfSpans(spans) :: Page(Reserved, 0, false);
      zones := [EMPTY_ZONE, EMPTY_ZONE];
      owners := Owners({}, {}, {}, {});
      new;
      EmptyAtRest(spans, pages, zones);
    }

    /** Binary search over the spans. */
    method FrameValid(p: nat) returns (ok: bool)
      requires SpansOk(spans)
      ensures ok <==> InSpans(spans, p)
    {
      var lo, hi := 0, |spans|;
      while lo < hi
        invariant 0 <= lo <= hi <= |spans|
        invariant forall i | 0 <= i < lo :: spans[i].end <= p
        invariant forall i | hi <= i < |spans| :: p < spans[i].start
      {
        var mid := lo + (hi - lo) / 2;
        if p < spans[mid].start {
          hi := mid;
        } else if p >= spans[mid].end {
          lo := mid + 1;
        } else {
          return true;
        }
      }
      return false;
    }

    /** Frees a block whose pages are all tails, merging it upwards. */
    method FreeBlock(pfn: nat, order: nat)
      requires Consistent(owners, pages, zones) && FreeCounted(zones, owners.free, pages.Keys)
      requires owners.moving == {BlockAt(pfn, order)} && Head(BlockAt(pfn, order)) == pfn
      modifies this`pages, this`zones, this`owners
      ensures AtRest(owners, pages, zones) && pages.Keys == old(pages.Keys) && SameCaches(old(zones), zones)
      ensures owners == old(owners).(free := Merge(old(owners.free), BlockAt(pfn, order)), moving := {})
    {
      hide Shr, Shl, ZoneOf, FramesOk, ListsOk, CachesOk, Canonical, ManagedCounted, FreeCounted, ChunkClosed, Merge,
           Pow2;
      ghost var b := BlockAt(pfn, order);
      ghost var c := b;
      assert order <= MAX_ORDER by {
        assert b in owners.free + owners.alloc + owners.moving;
      }
      ZoneBound(pfn);
      var z := ZoneOf(pfn);
      ghost var before := zones;
      assert |zones| == ZONE_COUNT;
      zones := zones[z := zones[z].(freePages := zones[z].freePages + Pow2(order))];
      AddCount(owners, pages, before, b, zones);
      CountersAside(owners, pages, before, zones);
      var p, k := pfn, order;
      while k < MAX_ORDER
        invariant k <= MAX_ORDER && c.order == k && Head(c) == p && ZoneOfBlock(c) == z
        invariant Consistent(owners, pages, zones) && FreeCounted(zones, owners.free + {c}, pages.Keys)
        invariant owners == old(owners).(free := owners.free, moving := {c})
        invariant Merge(owners.free, c) == Merge(old(owners.free), b)
        invariant pages.Keys == old(pages.Keys) && SameCaches(old(zones), zones)
      {
        BuddyTest(owners, pages, c);
        BuddyHeads(c);
        var q := FlipBit(p, k);
        if pages[q].state != BuddyHead || pages[q].order != k {
          break;
        }
        MergeUnfold(owners.free, c);
        RelativeZones(c);
        MergeStep(owners, pages, zones, c);
        SameCachesAfter(zones, Buddy(c));
        zones := WithList(zones, z, k, Without(zones[z].freeList[k], q));
        pages := Marked(pages, q, Tail, 0);
        owners := owners.(free := owners.free - {Buddy(c)}, moving := {Parent(c)});
        c := Parent(c);
        p := ClearBit(p, k);
        k := k + 1;
      }
      assert k == MAX_ORDER || Buddy(c) !in owners.free;
      MergeUnfold(owners.free, c);
      LandStep(owners, pages, zones, c);
      SameCachesAfter(zones, c);
      zones := WithList(zones, z, k, [p] + zones[z].freeList[k]);
      pages := Marked(pages, p, BuddyHead, k);
      owners := owners.(free := owners.free + {c}, moving := {});
    }

    /** Takes the smallest block of the zone that is large enough and splits it down. */
    method AllocBlock(z: nat, order: nat) returns (ok: bool, pfn: nat, ghost taken: Block)
      requires AtRest(owners, pages, zones) && z < ZONE_COUNT && order <= MAX_ORDER
      modifies this`pages, this`zones, this`owners
      ensures ok <==> !NoneFree(old(owners.free), z, order)
      ensures !ok ==> pages == old(pages) && zones == old(zones) && owners == old(owners)
      ensures ok ==> BestFit(old(owners.free), z, order, taken)
      ensures ok ==>
                pfn == Head(Lowest(taken, order)) && ZoneOf(pfn) == z && Lowest(taken, order) == BlockAt(pfn, order)
      ensures ok ==>
                owners == old(owners).(free := Split(old(owners.free) - {taken}, taken, order),
                                       moving := {BlockAt(pfn, order)})
      ensures ok ==> Consistent(owners, pages, zones) && FreeCounted(zones, owners.free, pages.Keys)
      ensures pages.Keys == old(pages.Keys) && SameCaches(old(zones), zones)
    {
      hide Shr, Shl, ZoneOf, FramesOk, ListsOk, CachesOk, Canonical, ManagedCounted, FreeCounted, ChunkClosed, Split,
           Lowest, Pow2;
      var k := order;
      pfn := 0;
      taken := Block(0, 0);
      while k <= MAX_ORDER && zones[z].freeList[k] == []
        invariant order <= k <= MAX_ORDER + 1
        invariant forall j | order <= j < k :: zones[z].freeList[j] == []
      {
        k := k + 1;
      }
      SmallerEmpty(zones, owners, z, order, k);
      if k > MAX_ORDER {
        return false, pfn, taken;
      }
      pfn := zones[z].freeList[k][0];
      OnList(zones, owners.free, z, k, pfn);
      taken := BlockAt(pfn, k);
      TakeStep(owners, pages, zones, taken);
      FrontRemoved(zones[z].freeList[k]);
      SameCachesAfter(zones, taken);
      zones := WithList(zones, z, k, zones[z].freeList[k][1..]);
      pages := Marked(pages, pfn, Tail, 0);
      owners := owners.(free := owners.free - {taken}, moving := {taken});
      SplitDown(z, pfn, k, order, taken);
      ghost var b := Lowest(taken, order);
      ghost var before := zones;
      HeadIn(b);
      SubCount(owners, pages, zones, b);
      zones := zones[z := zones[z].(freePages := zones[z].freePages - Pow2(order))];
      CountersAside(owners, pages, before, zones);
      ok := true;
    }

    /** Halves the block on the move until it has the order asked for; the upper halves become free. */
    method SplitDown(z: nat, pfn: nat, top: nat, order: nat, ghost taken: Block)
      requires z < ZONE_COUNT && order <= top <= MAX_ORDER && taken.order == top && Head(taken) == pfn
               && ZoneOfBlock(taken) == z
      requires Consistent(owners, pages, zones) && owners.moving == {taken}
      requires FreeCounted(zones, owners.free + {taken}, pages.Keys)
      modifies this`pages, this`zones, this`owners
      ensures var b := Lowest(taken, order);
              && b.order == order && Head(b) == pfn && ZoneOfBlock(b) == z
              && owners == old(owners).(free := Split(old(owners.free), taken, order), moving := {b})
              && Consistent(owners, pages, zones) && FreeCounted(zones, owners.free + {b}, pages.Keys)
      ensures pages.Keys == old(pages.Keys) && SameCaches(old(zones), zones)
    {
      hide Shr, Shl, ZoneOf, FramesOk, ListsOk, CachesOk, Canonical, ManagedCounted, FreeCounted, ChunkClosed, Split,
           Lowest, Pow2;
      var k := top;
      ghost var b := taken;
      while k > order
        invariant order <= k <= MAX_ORDER && b.order == k && Head(b) == pfn && ZoneOfBlock(b) == z
        invariant Consistent(owners, pages, zones) && FreeCounted(zones, owners.free + {b}, pages.Keys)
        invariant owners == old(owners).(free := owners.free, moving := {b})
        invariant Split(owners.free, b, order) == Split(old(owners.free), taken, order)
        invariant Lowest(b, order) == Lowest(taken, order)
        invariant pages.Keys == old(pages.Keys) && SameCaches(old(zones), zones)
      {
        SplitUnfold(owners.free, b, order);
        RelativeZones(b);
        RightHead(b);
        SplitStep(owners, pages, zones, b);
        SameCachesAfter(zones, Right(b));
        k := k - 1;
        var upper := pfn + Pow2(k);
        pages := Marked(pages, upper, BuddyHead, k);
        zones := WithList(zones, z, k, [upper] + zones[z].freeList[k]);
        owners := owners.(free := owners.free + {Right(b)}, moving := {Left(b)});
        b := Left(b);
      }
      SplitUnfold(owners.free, b, order);
    }

    /** Fills an empty cache from the buddy lists, then takes its front frame. The page still says cached. */
    method CacheAlloc(z: nat) returns (ok: bool, pfn: nat)
      requires AtRest(owners, pages, zones) && z < ZONE_COUNT
      modifies this`pages, this`zones, this`owners
      ensures ok <==> old(zones)[z].cache != [] || !NoneFree(old(owners.free), z, 0)
      ensures !ok ==> pages == old(pages) && zones == old(zones) && owners == old(owners)
      ensures ok ==> Shape(zones) && AtRest(owners, pages, WithCache(zones, z, [pfn] + zones[z].cache))
      ensures pages.Keys == old(pages.Keys) && owners.alloc == old(owners.alloc)
      ensures forall p: nat :: Available(owners, p) <==> Available(old(owners), p)
    {
      hide Shr, Shl, ZoneOf, AtRest, Consistent, FreeCounted, Split, Lowest, Covered, BestFit;
      pfn := 0;
      RestMeansStill(owners, pages, zones);
      if zones[z].cache == [] {
        Refill(z);
        if zones[z].cache == [] {
          return false, pfn;
        }
      }
      RestShape(owners, pages, zones);
      pfn := zones[z].cache[0];
      ghost var before := zones;
      zones := WithCache(zones, z, zones[z].cache[1..]);
      assert WithCache(zones, z, [pfn] + zones[z].cache) == before by {
        assert [pfn] + before[z].cache[1..] == before[z].cache;
      }
      ok := true;
    }

    /** Puts an allocated frame into its zone's cache; an overfull cache gives its oldest frames back. */
    method CacheFree(pfn: nat)
      requires AtRest(owners, pages, zones) && Block(pfn, 0) in owners.alloc
      modifies this`pages, this`zones, this`owners
      ensures AtRest(owners, pages, zones) && pages.Keys == old(pages.Keys)
      ensures owners.alloc == old(owners.alloc) - {Block(pfn, 0)}
      ensures forall p: nat :: Available(owners, p) <==> Available(old(owners), p) || p == pfn
      ensures CacheFreed(old(zones), zones, pfn)
      ensures owners.free == MergeFrames(old(owners.free), Overflow(old(zones)[ZoneOf(pfn)].cache, pfn))
    {
      hide Shr, Shl, ZoneOf, AtRest, Consistent, FreeCounted, Merge, Covered;
      RestShape(owners, pages, zones);
      var z := ZoneOf(pfn);
      SingleBlock(pfn);
      HeadOfSingle(pfn);
      TakeBackStep(owners, pages, zones, Block(pfn, 0));
      ghost var o1 := owners.(alloc := owners.alloc - {Block(pfn, 0)}, moving := {Block(pfn, 0)});
      ghost var pages1 := Marked(pages, pfn, Tail, 0);
      CachePutStep(o1, pages1, zones, pfn, 0) by {
        RestCounted(owners, pages, zones);
      }
      RestMeansStill(owners, pages, zones);
      pages := Marked(pages, pfn, Cached, 0);
      assert pages == Marked(pages1, pfn, Cached, 0);
      zones := WithCache(zones, z, [pfn] + zones[z].cache);
      owners := owners.(alloc := owners.alloc - {Block(pfn, 0)}, cached := owners.cached + {pfn});
      if |zones[z].cache| > CACHE_HIGH {
        TrimCache(z);
      }
    }

    /** Gives the oldest frames of an overfull cache to the buddy lists. */
    method TrimCache(z: nat)
      requires AtRest(owners, pages, zones) && z < ZONE_COUNT && |zones| == ZONE_COUNT && |zones[z].cache| > CACHE_HIGH
      modifies this`pages, this`zones, this`owners
      ensures AtRest(owners, pages, zones) && pages.Keys == old(pages.Keys) && owners.alloc == old(owners.alloc)
      ensures |zones| == ZONE_COUNT && zones[z].cache == old(zones[z].cache[..|zones[z].cache| - CACHE_BATCH])
      ensures forall y | 0 <= y < ZONE_COUNT && y != z :: zones[y].cache == old(zones[y].cache)
      ensures owners.free == MergeFrames(old(owners.free), old(zones[z].cache[|zones[z].cache| - CACHE_BATCH..]))
      ensures forall p: nat :: Available(owners, p) <==> Available(old(owners), p)
    {
      hide Shr, Shl, ZoneOf, AtRest, Consistent, FreeCounted, Merge, Covered, Available;
      ghost var c := zones[z].cache;
      var i := 0;
      while i < CACHE_BATCH && zones[z].cache != []
        invariant 0 <= i <= CACHE_BATCH && AtRest(owners, pages, zones) && |zones| == ZONE_COUNT
        invariant zones[z].cache == c[..|c| - i] && owners.free == MergeFrames(old(owners.free), c[|c| - i..])
        invariant forall y | 0 <= y < ZONE_COUNT && y != z :: zones[y].cache == old(zones[y].cache)
        invariant pages.Keys == old(pages.Keys) && owners.alloc == old(owners.alloc)
        invariant forall p: nat :: Available(owners, p) <==> Available(old(owners), p)
      {
        Uncache(z, |zones[z].cache| - 1);
        assert c[|c| - i - 1..][1..] == c[|c| - i..];
        i := i + 1;
      }
    }

    /** Gives the cache's front or back frame to the buddy lists. */
    method Uncache(z: nat, at: nat)
      requires AtRest(owners, pages, zones) && z < ZONE_COUNT && |zones| == ZONE_COUNT && at < |zones[z].cache|
      modifies this`pages, this`zones, this`owners
      ensures AtRest(owners, pages, zones) && pages.Keys == old(pages.Keys) && owners.alloc == old(owners.alloc)
      ensures |zones| == ZONE_COUNT && zones[z].cache == old(zones[z].cache[..at] + zones[z].cache[at + 1..])
      ensures forall y | 0 <= y < ZONE_COUNT && y != z :: zones[y].cache == old(zones[y].cache)
      ensures owners.free == Merge(old(owners.free), Block(old(zones[z].cache[at]), 0))
      ensures forall p: nat :: Available(owners, p) <==> Available(old(owners), p)
    {
      hide Shr, Shl, ZoneOf, AtRest, Consistent, FreeCounted, Merge, Covered;
      var pfn := zones[z].cache[at];
      var rest := zones[z].cache[..at] + zones[z].cache[at + 1..];
      CachedLess(owners, pages, zones, z, at);
      CacheTakeStep(owners, pages, zones, z, rest, pfn);
      RestMeansStill(owners, pages, zones);
      zones := WithCache(zones, z, rest);
      pages := Marked(pages, pfn, Tail, pages[pfn].order);
      owners := owners.(cached := owners.cached - {pfn}, moving := {Block(pfn, 0)});
      SingleBlock(pfn);
      HeadOfSingle(pfn);
      ghost var o1, pages1, zones1 := owners, pages, zones;
      FreeBlock(pfn, 0);
      forall p: nat ensures Available(owners, p) <==> Available(old(owners), p) {
        MergeCovers(o1, pages1, zones1, Block(pfn, 0), p);
        SingleFrame(pfn, p);
      }
    }

    /** Empties both caches. */
    method DrainCaches()
      requires Valid()
      modifies this`pages, this`zones, this`owners
      ensures Valid() && owners.cached == {} && owners.alloc == old(owners.alloc)
              && Managed(pages) == old(Managed(pages))
      ensures forall p: nat :: Available(owners, p) <==> Available(old(owners), p)
    {
      hide Shr, Shl, ZoneOf, AtRest, Consistent, FreeCounted, Covered;
      RestMeansStill(owners, pages, zones);
      var z := 0;
      while z < ZONE_COUNT
        invariant 0 <= z <= ZONE_COUNT && AtRest(owners, pages, zones) && |zones| == ZONE_COUNT
        invariant pages.Keys == old(pages.Keys) && owners.alloc == old(owners.alloc)
        invariant forall y | 0 <= y < z :: zones[y].cache == []
        invariant forall p: nat :: Available(owners, p) <==> Available(old(owners), p)
      {
        while zones[z].cache != []
          invariant AtRest(owners, pages, zones) && |zones| == ZONE_COUNT
          invariant pages.Keys == old(pages.Keys) && owners.alloc == old(owners.alloc)
          invariant forall y | 0 <= y < z :: zones[y].cache == []
          invariant forall p: nat :: Available(owners, p) <==> Available(old(owners), p)
          decreases |zones[z].cache|
        {
          Uncache(z, 0);
        }
        z := z + 1;
      }
      NothingCached(owners, pages, zones);
      SameOwnedManaged(old(owners), old(pages), old(zones), owners, pages, zones);
    }

    /** Hands out a block of 2^order frames, from the zone above 4 GiB first unless low memory is asked for. */
    method AllocPages(order: nat, flags: Flags) returns (status: Status, pfn: nat)
      requires Valid()
      modifies this`pages, this`zones, this`owners
      ensures Valid() && Managed(pages) == old(Managed(pages))
      ensures status == ErrInvalid <==> order > MAX_ORDER || flags.unknown
      ensures status == ErrNoMemory <==> order <= MAX_ORDER && !flags.unknown && forall z | z in ZoneList(flags) ::
              !CanServe(old(owners), z, order)
      ensures status in {Ok, ErrInvalid, ErrNoMemory}
      ensures status != Ok ==> owners == old(owners) && pages == old(pages) && zones == old(zones)
      ensures status == Ok ==> Granted(old(owners), owners, pfn, order)
      ensures status == Ok ==>
              ZoneOf(pfn) in ZoneList(flags) && (ZoneOf(pfn) == 0 && !flags.dma32 ==> !CanServe(old(owners), 1, order))
      ensures status == Ok && flags.dma32 ==> forall p: nat | In(p, BlockAt(pfn, order)) :: p * FRAME < 0x1_0000_0000
    {
      hide Shr, Shl, ZoneOf, AtRest, Consistent, FreeCounted, Split, Lowest, Covered, NoneFree, CanServe, Granted,
           Available;
      pfn := 0;
      if order > MAX_ORDER || flags.unknown {
        return ErrInvalid, pfn;
      }
      var list := ZoneList(flags);
      var i := 0;
      while i < |list|
        invariant 0 <= i <= |list|
        invariant pages == old(pages) && zones == old(zones) && owners == old(owners)
        invariant forall j | 0 <= j < i :: !CanServe(old(owners), list[j], order)
      {
        assert i == 1 ==> !CanServe(old(owners), list[0], order);
        var ok;
        ok, pfn := AllocFrom(list[i], order);
        if ok {
          GrantKeepsManaged(old(owners), old(pages), old(zones), owners, pages, zones, pfn, order);
          if ZoneOf(pfn) == 0 {
            LowBlock(pfn, order);
          }
          return Ok, pfn;
        }
        i := i + 1;
      }
      status := ErrNoMemory;
    }

    method AllocFrom(z: nat, order: nat) returns (ok: bool, pfn: nat)
      requires AtRest(owners, pages, zones) && z < ZONE_COUNT && order <= MAX_ORDER
      modifies this`pages, this`zones, this`owners
      ensures ok <==> CanServe(old(owners), z, order)
      ensures !ok ==> owners == old(owners) && pages == old(pages) && zones == old(zones)
      ensures ok ==> AtRest(owners, pages, zones) && Granted(old(owners), owners, pfn, order) && ZoneOf(pfn) == z
      ensures pages.Keys == old(pages.Keys)
    {
      hide Shr, Shl, ZoneOf, AtRest, Consistent, FreeCounted, Split, Lowest, Covered, NoneFree;
      RestMeansStill(owners, pages, zones);
      if order == 0 {
        CachedHere(owners, pages, zones, z);
        ok, pfn := CacheAlloc(z);
        if ok {
          ghost var full := WithCache(zones, z, [pfn] + zones[z].cache);
          FrontLess(owners, pages, full, z, pfn);
          CacheGrantStep(owners, pages, full, z, zones[z].cache, pfn);
          CachedNotAlloc(owners, pages, full, pfn);
          ghost var o1 := owners;
          pages := Marked(pages, pfn, Allocated, 0);
          owners := owners.(cached := owners.cached - {pfn}, alloc := owners.alloc + {Block(pfn, 0)});
          assert WithCache(full, z, zones[z].cache) == zones;
          SingleBlock(pfn);
          HeadOfSingle(pfn);
          CacheGranted(old(owners), o1, owners, pages, zones, pfn);
        }
      } else {
        ghost var o0, pages0, zones0 := owners, pages, zones;
        ghost var taken;
        ok, pfn, taken := AllocBlock(z, order);
        if ok {
          GrantStep(owners, pages, zones, BlockAt(pfn, order));
          BuddyGranted(o0, pages0, zones0, taken, owners, pages, zones, order);
          pages := Marked(pages, pfn, Allocated, order);
          owners := owners.(alloc := owners.alloc + {BlockAt(pfn, order)}, moving := {});
        }
      }
    }

    /** Whether an ordinary page lies in a free block: looks at the possible head of every order. */
    method InsideFreeBlock(pfn: nat) returns (found: bool)
      requires Valid() && pfn in pages
      ensures found <==> Covered(owners.free, pfn)
    {
      hide Shr, Shl, FrameOk, ListsOk, FreeCounted, ManagedCounted, CachesOk;
      var k := 0;
      while k <= MAX_ORDER
        invariant 0 <= k <= MAX_ORDER + 1
        invariant forall j | 0 <= j < k :: !HeadCovers(owners, pfn, j)
      {
        HeadTest(owners, pages, zones, pfn, k);
        var head := Shl(Shr(pfn, k), k);
        if pages[head].state == BuddyHead && pages[head].order >= k {
          return true;
        }
        k := k + 1;
      }
      SomeHeadCovers(owners, pages, zones, pfn);
      return false;
    }

    /** Whether some page of the block still belongs to the slab or to vmalloc. */
    method AnyOwned(pfn: nat, order: nat) returns (found: bool)
      requires Valid() && BlockAt(pfn, order) in owners.alloc && Head(BlockAt(pfn, order)) == pfn
      ensures found <==> OwnedIn(pages, BlockAt(pfn, order))
    {
      hide Shr, Shl, ListsOk, FreeCounted, ManagedCounted, CachesOk, Pow2, FrameOk;
      var p := pfn;
      while p < pfn + Pow2(order)
        invariant pfn <= p <= pfn + Pow2(order)
        invariant forall q | pfn <= q < p :: q in pages && !pages[q].owned
      {
        BlockRange(p, BlockAt(pfn, order));
        if pages[p].owned {
          return true;
        }
        p := p + 1;
      }
      forall q: nat ensures In(q, BlockAt(pfn, order)) <==> pfn <= q < pfn + Pow2(order) {
        BlockRange(q, BlockAt(pfn, order));
      }
      return false;
    }

    /** Decides whether a block may be freed, and if not what is wrong. */
    method ValidateForFree(pfn: nat, order: nat) returns (verdict: Verdict)
      requires Valid()
      ensures verdict == FreeVerdict(owners, pages, pfn, order)
    {
      hide Shr, Shl, AtRest, OwnedIn, Covered;
      var known := FrameValid(pfn);
      if !known {
        return InvalidPage;
      }
      if order > MAX_ORDER {
        return BadOrder;
      }
      if Shl(Shr(pfn, order), order) != pfn {
        return Misaligned;
      }
      PageSays(owners, pages, zones, pfn);
      match pages[pfn].state {
        case Allocated =>
          HeadOrder(owners, pages, zones, pfn, order);
          if pages[pfn].order != order {
            return OrderMismatch;
          }
          var owned := AnyOwned(pfn, order);
          return if owned then OwnedPage else Freeable;
        case BuddyHead => return DoubleFree;
        case Cached => return DoubleFree;
        case Tail =>
          assert !IsHead(owners.alloc, pfn, order);
          var free := InsideFreeBlock(pfn);
          return if free then DoubleFree else NotHead;
        case Reserved => return ReservedFrame;
      }
    }

    /** Frees an allocated block; anything else is refused and changes nothing. */
    method FreePages(pfn: nat, order: nat) returns (verdict: Verdict)
      requires Valid()
      modifies this`pages, this`zones, this`owners
      ensures Valid() && Managed(pages) == old(Managed(pages))
      ensures verdict == FreeVerdict(old(owners), old(pages), pfn, order)
      ensures verdict != Freeable ==> owners == old(owners) && pages == old(pages) && zones == old(zones)
      ensures verdict == Freeable ==> Granted(owners, old(owners), pfn, order)
      ensures verdict == Freeable && order > 0 ==>
                owners.free == Merge(old(owners.free), BlockAt(pfn, order)) && SameCaches(old(zones), zones)
      ensures verdict == Freeable && order == 0 ==>
                CacheFreed(old(zones), zones, pfn)
                && owners.free == MergeFrames(old(owners.free), Overflow(old(zones)[ZoneOf(pfn)].cache, pfn))
    {
      hide Shr, Shl, AtRest, OwnedIn, Covered, Merge, Consistent, FreeCounted, CacheFreed, SameCaches;
      verdict := ValidateForFree(pfn, order);
      if verdict != Freeable {
        return;
      }
      ghost var b := BlockAt(pfn, order);
      assert b in owners.alloc && Head(b) == pfn;
      RestMeansStill(owners, pages, zones);
      forall p: nat | In(p, b) ensures !Available(owners, p) {
        RestAllocNotAvailable(owners, pages, zones, b, p);
      }
      if order == 0 {
        SingleBlock(pfn);
        CacheFree(pfn);
        forall p: nat ensures In(p, b) <==> p == pfn {
          SingleFrame(pfn, p);
        }
      } else {
        RestCounted(owners, pages, zones);
        TakeBackStep(owners, pages, zones, b);
        pages := Marked(pages, pfn, Tail, 0);
        owners := owners.(alloc := owners.alloc - {b}, moving := {b});
        ghost var o1, pages1, zones1 := owners, pages, zones;
        FreeBlock(pfn, order);
        forall p: nat ensures Available(owners, p) <==> Available(old(owners), p) || In(p, b) {
          MergeCovers(o1, pages1, zones1, b, p);
        }
      }
      GrantKeepsManaged(owners, pages, zones, old(owners), old(pages), old(zones), pfn, order);
    }

    /** Gives a range of reserved frames to the buddy lists, as the largest aligned blocks that fit. */
    method AddFreeRange(base: nat, length: nat) returns (status: Status)
      requires Valid()
      modifies this`pages, this`zones, this`owners
      ensures Valid()
      ensures status == Ok <==>
              base % FRAME == 0 == length % FRAME
                && RangeReserved(old(owners), old(pages), base / FRAME, (base + length) / FRAME)
      ensures status == Ok || status == ErrInvalid
      ensures status != Ok ==> owners == old(owners) && pages == old(pages) && zones == old(zones)
      ensures status == Ok ==> owners.alloc == old(owners.alloc) && owners.cached == old(owners.cached)
      ensures status == Ok ==> forall p: nat :: Covered(owners.free, p) <==>
              Covered(old(owners.free), p) || base / FRAME <= p < (base + length) / FRAME
      ensures status == Ok ==> Managed(pages) == old(Managed(pages)) + FrameRange(base / FRAME, (base + length) / FRAME)
      ensures status == Ok ==> old(Managed(pages)) !! FrameRange(base / FRAME, (base + length) / FRAME)
    {
      hide Shr, Shl, AtRest, Covered, Merge, Consistent, FreeCounted, RangeReserved;
      if base % FRAME != 0 || length % FRAME != 0 {
        return ErrInvalid;
      }
      if length == 0 {
        assert RangeReserved(owners, pages, base / FRAME, base / FRAME) by {
          EmptyRange(owners, pages, base / FRAME);
        }
        assert FrameRange(base / FRAME, base / FRAME) == {};
        return Ok;
      }
      var start := base / FRAME;
      var end := start + length / FRAME;
      assert end == (base + length) / FRAME;
      var ok := CheckReserved(start, end);
      if !ok {
        return ErrInvalid;
      }
      var p := start;
      while p < end
        invariant start <= p <= end && AtRest(owners, pages, zones) && pages.Keys == old(pages.Keys)
        invariant RangeReserved(owners, pages, p, end)
        invariant owners.alloc == old(owners.alloc) && owners.cached == old(owners.cached)
        invariant forall q: nat :: Covered(owners.free, q) <==> Covered(old(owners.free), q) || start <= q < p
      {
        var order := LargestOrder(p, end);
        forall q: nat ensures In(q, BlockAt(p, order)) <==> p <= q < p + Pow2(order) {
          BlockRange(q, BlockAt(p, order));
        }
        ghost var o1, pages1 := owners, pages;
        BlockReserved(owners, pages, zones, p, end, order);
        AddBlock(p, order);
        RangeShrinks(o1, pages1, owners, pages, p, end, order);
        p := p + Pow2(order);
      }
      RangeAddsManaged(old(owners), old(pages), old(zones), owners, pages, zones, start, end);
      status := Ok;
    }

    method CheckReserved(start: nat, end: nat) returns (ok: bool)
      requires Valid()
      ensures ok <==> RangeReserved(owners, pages, start, end)
    {
      hide Shr, Shl, AtRest, Covered, Available;
      var p := start;
      while p < end
        invariant start <= p && (start <= end ==> p <= end)
        invariant RangeReserved(owners, pages, start, p)
      {
        var known := FrameValid(p);
        if known {
          ReservedIff(owners, pages, zones, p);
        }
        if !known || pages[p].state != Reserved {
          return false;
        }
        p := p + 1;
      }
      return true;
    }

    /** Opens one aligned block of reserved frames and frees it. */
    method AddBlock(pfn: nat, order: nat)
      requires AtRest(owners, pages, zones) && order <= MAX_ORDER && Head(BlockAt(pfn, order)) == pfn
      requires AllReserved(pages, BlockAt(pfn, order))
      modifies this`pages, this`zones, this`owners
      ensures AtRest(owners, pages, zones) && pages.Keys == old(pages.Keys)
      ensures owners == old(owners).(free := Merge(old(owners.free), BlockAt(pfn, order)))
      ensures forall p: nat :: Covered(owners.free, p) <==> Covered(old(owners.free), p) || In(p, BlockAt(pfn, order))
    {
      hide Shr, Shl, AtRest, Covered, Merge, Consistent, FreeCounted, Pow2, AllReserved;
      ghost var b := BlockAt(pfn, order);
      ghost var o0, pages0, zones0 := owners, pages, zones;
      RestShape(owners, pages, zones);
      RestMeansStill(owners, pages, zones);
      OpenPages(pfn, order);
      var z := ZoneOf(pfn);
      zones := zones[z := zones[z].(managedPages := zones[z].managedPages + Pow2(order))];
      owners := owners.(moving := {b});
      OpenStep(o0, pages0, zones0, b, pages, zones);
      ghost var o1, pages1, zones1 := owners, pages, zones;
      FreeBlock(pfn, order);
      forall p: nat ensures Covered(owners.free, p) <==> Covered(old(owners.free), p) || In(p, b) {
        MergeCovers(o1, pages1, zones1, b, p);
      }
    }

    method OpenPages(pfn: nat, order: nat)
      requires Head(BlockAt(pfn, order)) == pfn && AllReserved(pages, BlockAt(pfn, order))
      modifies this`pages
      ensures Opened(old(pages), pages, BlockAt(pfn, order))
    {
      hide Shr, Shl, Pow2;
      var p := pfn;
      while p < pfn + Pow2(order)
        invariant pfn <= p <= pfn + Pow2(order) && pages.Keys == old(pages.Keys)
        invariant forall q | q in pages ::
                  pages[q] == if pfn <= q < p then old(pages)[q].(state := Tail) else old(pages)[q]
      {
        BlockRange(p, BlockAt(pfn, order));
        pages := pages[p := pages[p].(state := Tail)];
        p := p + 1;
      }
      forall q: nat ensures In(q, BlockAt(pfn, order)) <==> pfn <= q < pfn + Pow2(order) {
        BlockRange(q, BlockAt(pfn, order));
      }
    }

    /** Managed, free (cached ones included) and allocated frames over both zones. */
    method GetStats() returns (managed: nat, free: nat, inUse: nat)
      requires Valid()
      ensures managed == |Managed(pages)|
      ensures free == |set p | p in pages && Available(owners, p)|
      ensures inUse == |set p | p in pages && Covered(owners.alloc, p)|
    {
      hide Shr, Shl, AtRest, Covered, ZoneOf, ManagedIn, FramesIn, CachedIn;
      RestMeansStill(owners, pages, zones);
      Conservation(owners, pages, zones, 0);
      Conservation(owners, pages, zones, 1);
      managed := zones[0].managedPages + zones[1].managedPages;
      free := zones[0].freePages + |zones[0].cache| + zones[1].freePages + |zones[1].cache|;
      inUse := managed - free;
      Totals(owners, pages, zones);
    }

    method Refill(z: nat)
      requires AtRest(owners, pages, zones) && z < ZONE_COUNT && |zones| == ZONE_COUNT && zones[z].cache == []
      modifies this`pages, this`zones, this`owners
      ensures AtRest(owners, pages, zones) && |zones| == ZONE_COUNT
      ensures zones[z].cache == [] <==> NoneFree(old(owners.free), z, 0)
      ensures zones[z].cache == [] ==> pages == old(pages) && zones == old(zones) && owners == old(owners)
      ensures pages.Keys == old(pages.Keys) && owners.alloc == old(owners.alloc)
      ensures forall p: nat :: Available(owners, p) <==> Available(old(owners), p)
    {
      hide Shr, Shl, ZoneOf, AtRest, Consistent, FreeCounted, Split, Lowest, Covered;
      var i := 0;
      while i < CACHE_BATCH
        invariant 0 <= i <= CACHE_BATCH
        invariant AtRest(owners, pages, zones) && |zones| == ZONE_COUNT && |zones[z].cache| == i
        invariant i == 0 ==> pages == old(pages) && zones == old(zones) && owners == old(owners)
        invariant i > 0 ==> !NoneFree(old(owners.free), z, 0)
        invariant pages.Keys == old(pages.Keys) && owners.alloc == old(owners.alloc)
        invariant forall p: nat :: Available(owners, p) <==> Available(old(owners), p)
      {
        ghost var before, pages0, zones0 := owners, pages, zones;
        RestMeansStill(owners, pages, zones);
        var got, pfn, taken := AllocBlock(z, 0);
        if !got {
          break;
        }
        SingleBlock(pfn);
        MovingHasPage(owners, pages, zones, pfn);
        CachePutStep(owners, pages, zones, pfn, pages[pfn].order);
        forall p: nat ensures Available(owners.(cached := owners.cached + {pfn}, moving := {}), p) <==>
          Available(before, p) {
          RefillKeeps(before, pages0, zones0, taken, pfn, p);
        }
        pages := Marked(pages, pfn, Cached, pages[pfn].order);
        zones := WithCache(zones, z, [pfn] + zones[z].cache);
        owners := owners.(cached := owners.cached + {pfn}, moving := {});
        i := i + 1;
      }
    }
  }
}
