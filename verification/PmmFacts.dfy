/** What the page allocator's methods need to know about its state, and what they promise about it. */
module PmmFacts {
  import opened Bits
  import opened BuddyBlocks
  import opened FrameStates
  import opened PmmState
  import opened Sequences

  const CACHE_BATCH := 32
  const CACHE_HIGH := 6 * CACHE_BATCH

  /** Frames `start` up to but not including `end`; whole top-order blocks. */
  datatype Span = Span(start: nat, end: nat)

  ghost predicate SpansOk(spans: seq<Span>) {
    && (forall i | 0 <= i < |spans| ::
       spans[i].start < spans[i].end && spans[i].start % 1024 == 0 == spans[i].end % 1024)
    && (forall i, j | 0 <= i < j < |spans| :: spans[i].end < spans[j].start)
  }

  predicate InSpan(s: Span, p: nat) {
    s.start <= p < s.end
  }

  ghost predicate InSpans(spans: seq<Span>, p: nat) {
    exists i | 0 <= i < |spans| :: spans[i].start <= p < spans[i].end
  }

  lemma ShrTen(p: nat)
    ensures Shr(p, MAX_ORDER) == p / 1024
  {
    assert Shr(p, 1) == p / 2;
    assert Shr(p, 2) == p / 4;
    assert Shr(p, 3) == p / 8;
    assert Shr(p, 4) == p / 16;
    assert Shr(p, 5) == p / 32;
    assert Shr(p, 6) == p / 64;
    assert Shr(p, 7) == p / 128;
    assert Shr(p, 8) == p / 256;
    assert Shr(p, 9) == p / 512;
  }

  lemma SpansClosed(spans: seq<Span>, keys: set<nat>)
    requires SpansOk(spans) && forall p: nat :: p in keys <==> InSpans(spans, p)
    ensures ChunkClosed(keys)
  {
    hide Shr;
    forall p: nat, q: nat | Shr(p, MAX_ORDER) == Shr(q, MAX_ORDER) && p in keys ensures q in keys {
      ShrTen(p);
      ShrTen(q);
      var i :| 0 <= i < |spans| && spans[i].start <= p < spans[i].end;
      WholeChunks(spans[i].start, spans[i].end, p, q);
    }
  }

  lemma WholeChunks(start: nat, end: nat, p: nat, q: nat)
    requires start % 1024 == 0 == end % 1024 && p / 1024 == q / 1024 && start <= p < end
    ensures start <= q < end
  {
  }

  // ----- facts the methods need -----

  /** The buddy's page tells whether the buddy is a free block of the same order. */
  lemma BuddyTest(o: Owners, pages: map<nat, Page>, b: Block)
    requires FramesOk(o, pages) && ChunkClosed(pages.Keys) && b in o.moving && b.order < MAX_ORDER
    ensures Head(Buddy(b)) in pages
    ensures (pages[Head(Buddy(b))].state == BuddyHead && pages[Head(Buddy(b))].order == b.order) <==> Buddy(b) in o.free
  {
    hide Shr, Shl;
    var c := Buddy(b);
    HeadIn(b);
    HeadIn(c);
    ParentHalves(b);
    FrameHalves(Head(b), Parent(b));
    FrameHalves(Head(c), Parent(b));
    SameChunk(Head(b), Head(c), Parent(b));
    assert FrameOk(o, Head(c), pages[Head(c)]);
    if c in o.free {
      StateOfFree(o, pages, c, Head(c));
    }
  }

  lemma AddCount(o: Owners, pages: map<nat, Page>, zones: seq<Zone>, b: Block, zones': seq<Zone>)
    requires FramesOk(o, pages) && b in o.moving && b.order <= MAX_ORDER && FreeCounted(zones, o.free, pages.Keys)
    requires ZoneOfBlock(b) < ZONE_COUNT
    requires zones' == zones[ZoneOfBlock(b) := zones[ZoneOfBlock(b)].(freePages := zones[ZoneOfBlock(b)].freePages
             + Pow2(b.order))]
    ensures FreeCounted(zones', o.free + {b}, pages.Keys)
  {
    hide Shr, Shl, ZoneOf, FramesIn, FrameOk, Pow2;
    MovingApart(o, b);
    forall z | 0 <= z < ZONE_COUNT ensures zones'[z].freePages == |FramesIn(o.free + {b}, pages.Keys, z)| {
      CountBlock(o.free, pages.Keys, b, z);
    }
  }

  lemma SubCount(o: Owners, pages: map<nat, Page>, zones: seq<Zone>, b: Block)
    requires FramesOk(o, pages) && b in o.moving && b.order <= MAX_ORDER && FreeCounted(zones, o.free + {b}, pages.Keys)
    requires ZoneOfBlock(b) < ZONE_COUNT
    ensures zones[ZoneOfBlock(b)].freePages >= Pow2(b.order)
    ensures var z := ZoneOfBlock(b);
            FreeCounted(zones[z := zones[z].(freePages := zones[z].freePages - Pow2(b.order))], o.free, pages.Keys)
  {
    hide Shr, Shl, ZoneOf, FramesIn, FrameOk, Pow2;
    MovingApart(o, b);
    var y := ZoneOfBlock(b);
    CountBlock(o.free, pages.Keys, b, y);
    forall z | 0 <= z < ZONE_COUNT ensures zones[z].freePages == |FramesIn(o.free, pages.Keys, z)| + if z == y then
      Pow2(b.order) else 0 {
      CountBlock(o.free, pages.Keys, b, z);
    }
  }

  /** Counters aside, the two zone tables are the same. */
  ghost predicate OnlyCounters(zones: seq<Zone>, zones': seq<Zone>) {
    |zones| == |zones'| && forall z | 0 <= z < |zones| :: zones'[z] == zones[z].(freePages := zones'[z].freePages)
  }

  lemma CountersAside(o: Owners, pages: map<nat, Page>, zones: seq<Zone>, zones': seq<Zone>)
    requires Consistent(o, pages, zones) && OnlyCounters(zones, zones')
    ensures Consistent(o, pages, zones')
  {
    hide ListOk, CacheOk, FramesOk, Canonical, LegalOrders, ChunkClosed, ManagedIn;
    forall z, k | 0 <= z < ZONE_COUNT && 0 <= k <= MAX_ORDER ensures ListOk(zones'[z].freeList[k], o.free, z, k) {
      assert ListOk(zones[z].freeList[k], o.free, z, k);
    }
  }

  ghost predicate SameCaches(zones: seq<Zone>, zones': seq<Zone>) {
    |zones| == |zones'| && forall z | 0 <= z < |zones| ::
      zones'[z].cache == zones[z].cache && zones'[z].managedPages == zones[z].managedPages
  }

  /** A zone's cache after a frame was put in front: an overfull one loses its oldest frames. */
  function CacheAfter(cache: seq<nat>, p: nat): seq<nat> {
    var c := [p] + cache;
    if |c| > CACHE_HIGH then c[..|c| - CACHE_BATCH] else c
  }

  /** The frames an overfull cache gives back. */
  function Overflow(cache: seq<nat>, p: nat): seq<nat> {
    var c := [p] + cache;
    if |c| > CACHE_HIGH then c[|c| - CACHE_BATCH..] else []
  }

  /** Single frames freed one by one, the last one first. */
  ghost function MergeFrames(free: set<Block>, frames: seq<nat>): set<Block> {
    if frames == [] then free else Merge(MergeFrames(free, frames[1..]), Block(frames[0], 0))
  }

  /** Only the frame's own zone has a new cache. */
  ghost predicate CacheFreed(zones: seq<Zone>, zones': seq<Zone>, p: nat) {
    && |zones| == |zones'| == ZONE_COUNT && ZoneOf(p) < ZONE_COUNT
    && zones'[ZoneOf(p)].cache == CacheAfter(zones[ZoneOf(p)].cache, p)
    && forall z | 0 <= z < ZONE_COUNT && z != ZoneOf(p) :: zones'[z].cache == zones[z].cache
  }

  lemma SameCachesAfter(zones: seq<Zone>, b: Block)
    requires Shape(zones) && b.order <= MAX_ORDER
    ensures SameCaches(zones, Pushed(zones, b)) && SameCaches(zones, Dropped(zones, b))
  {
  }

  lemma OnList(zones: seq<Zone>, free: set<Block>, z: nat, k: nat, h: nat)
    requires ListsOk(zones, free) && z < ZONE_COUNT && k <= MAX_ORDER && h in zones[z].freeList[k]
    ensures BlockAt(h, k) in free && Head(BlockAt(h, k)) == h && ZoneOf(h) == z
  {
    hide Shr, Shl, ZoneOf;
    assert ListOk(zones[z].freeList[k], free, z, k);
  }

  lemma FreeOnList(zones: seq<Zone>, free: set<Block>, b: Block)
    requires ListsOk(zones, free) && b in free && b.order <= MAX_ORDER
    ensures ZoneOfBlock(b) < ZONE_COUNT && Head(b) in zones[ZoneOfBlock(b)].freeList[b.order]
  {
    hide Shr, Shl, ZoneOf;
    ZoneBound(Head(b));
    HeadIn(b);
    assert ListOk(zones[ZoneOfBlock(b)].freeList[b.order], free, ZoneOfBlock(b), b.order);
  }

  /** No free block of the zone has at least this order. */
  ghost predicate NoneFree(free: set<Block>, z: nat, order: nat) {
    forall b | b in free && ZoneOfBlock(b) == z :: b.order < order
  }

  /** A free block of the zone with the least order that is enough. */
  ghost predicate BestFit(free: set<Block>, z: nat, order: nat, b: Block) {
    && b in free && ZoneOfBlock(b) == z && order <= b.order
    && forall c | c in free && ZoneOfBlock(c) == z && order <= c.order :: b.order <= c.order
  }

  lemma MergeUnfold(blocks: set<Block>, b: Block)
    ensures Merge(blocks, b) == if b.order < MAX_ORDER
            && Buddy(b) in blocks then Merge(blocks - {Buddy(b)}, Parent(b)) else blocks + {b}
  {
  }

  lemma SplitUnfold(blocks: set<Block>, b: Block, order: nat)
    requires order <= b.order
    ensures b.order == order ==> Split(blocks, b, order) == blocks && Lowest(b, order) == b
    ensures b.order > order ==>
            Split(blocks, b, order) == Split(blocks + {Right(b)}, Left(b), order)
              && Lowest(b, order) == Lowest(Left(b), order)
  {
  }

  lemma FrontRemoved(list: seq<nat>)
    requires list != []
    ensures Without(list, list[0]) == list[1..]
  {
  }

  /** The first nonempty list from `order` up holds the best fits; if there is none, nothing fits. */
  lemma SmallerEmpty(zones: seq<Zone>, o: Owners, z: nat, order: nat, k: nat)
    requires ListsOk(zones, o.free) && LegalOrders(o) && z < ZONE_COUNT && order <= k <= MAX_ORDER + 1
    requires forall j | order <= j < k :: zones[z].freeList[j] == []
    ensures forall b | b in o.free && ZoneOfBlock(b) == z && order <= b.order :: k <= b.order
    ensures k > MAX_ORDER ==> NoneFree(o.free, z, order)
  {
    hide Shr, Shl, ZoneOf, ListsOk;
    forall b | b in o.free && ZoneOfBlock(b) == z && order <= b.order ensures k <= b.order {
      FreeOnList(zones, o.free, b);
    }
  }

  /** A frame that is free, in a block or in the cache. */
  ghost predicate Available(o: Owners, p: nat) {
    Covered(o.free, p) || p in o.cached
  }

  lemma RestShape(o: Owners, pages: map<nat, Page>, zones: seq<Zone>)
    requires AtRest(o, pages, zones)
    ensures Shape(zones)
  {
  }

  lemma SingleBlock(p: nat)
    ensures BlockAt(p, 0) == Block(p, 0)
  {
  }

  /** Splitting a block off the free ones only moves frames out of them. */
  lemma SplitCovers(free: set<Block>, b: Block, order: nat, p: nat)
    requires Canonical(free) && b in free && order <= b.order
    ensures Covered(free, p) <==> Covered(Split(free - {b}, b, order), p) || In(p, Lowest(b, order))
  {
    hide Shr, Split, Lowest;
    var rest := free - {b};
    SplitCanonical(rest, b, order);
    assert rest + {b} == free;
    CoveredWith(rest, b, p);
  }

  lemma RefillKeeps(o: Owners, pages: map<nat, Page>, zones: seq<Zone>, b: Block, pfn: nat, p: nat)
    requires AtRest(o, pages, zones) && b in o.free && Lowest(b, 0) == Block(pfn, 0)
    ensures Available(o.(free := Split(o.free - {b}, b, 0), cached := o.cached + {pfn}), p) <==> Available(o, p)
  {
    hide Split, Lowest, FramesOk, Covered;
    SplitCovers(o.free, b, 0, p);
  }

  lemma MovingHasPage(o: Owners, pages: map<nat, Page>, zones: seq<Zone>, p: nat)
    requires Consistent(o, pages, zones) && Block(p, 0) in o.moving
    ensures p in pages
  {
    assert In(p, Block(p, 0));
  }

  lemma HeadOfSingle(p: nat)
    ensures Head(Block(p, 0)) == p
  {
  }

  lemma SingleFrame(p: nat, q: nat)
    ensures In(q, Block(p, 0)) <==> q == p
  {
  }

  lemma RestCounted(o: Owners, pages: map<nat, Page>, zones: seq<Zone>)
    requires AtRest(o, pages, zones)
    ensures FreeCounted(zones, o.free, pages.Keys)
  {
  }

  lemma MergeCovers(o: Owners, pages: map<nat, Page>, zones: seq<Zone>, b: Block, p: nat)
    requires Consistent(o, pages, zones) && o.moving == {b}
    ensures Covered(Merge(o.free, b), p) <==> Covered(o.free, p) || In(p, b)
  {
    hide Shr, Merge, FrameOk;
    MovingApart(o, b);
    MergeCanonical(o.free, b);
  }

  lemma CachedLess(o: Owners, pages: map<nat, Page>, zones: seq<Zone>, z: nat, at: nat)
    requires AtRest(o, pages, zones) && z < ZONE_COUNT && at < |zones[z].cache|
    ensures CacheLess(zones[z].cache, zones[z].cache[..at] + zones[z].cache[at + 1..], zones[z].cache[at])
  {
    hide FramesOk, ListsOk, FreeCounted, ManagedCounted;
    assert CacheOk(zones[z].cache, o.cached, z);
    LessOne(zones[z].cache, at);
  }

  lemma LessOne(cache: seq<nat>, at: nat)
    requires Distinct(cache) && at < |cache|
    ensures CacheLess(cache, cache[..at] + cache[at + 1..], cache[at])
  {
    var rest := cache[..at] + cache[at + 1..];
    assert forall i | 0 <= i < |rest| :: rest[i] == cache[if i < at then i else i + 1];
    forall q ensures q in rest <==> q in cache && q != cache[at] {
      if q in cache && q != cache[at] {
        var i :| 0 <= i < |cache| && cache[i] == q;
        assert rest[if i < at then i else i - 1] == q;
      }
    }
  }

  lemma NothingCached(o: Owners, pages: map<nat, Page>, zones: seq<Zone>)
    requires AtRest(o, pages, zones) && |zones| == ZONE_COUNT && forall z | 0 <= z < ZONE_COUNT :: zones[z].cache == []
    ensures o.cached == {}
  {
    hide FramesOk, ListsOk, FreeCounted, ManagedCounted;
    forall p | p in o.cached ensures ZoneOf(p) < ZONE_COUNT && p in zones[ZoneOf(p)].cache {
      CachedOnList(zones, o.cached, p);
    }
  }

  lemma CachedOnList(zones: seq<Zone>, cached: set<nat>, p: nat)
    requires CachesOk(zones, cached) && p in cached
    ensures ZoneOf(p) < ZONE_COUNT && p in zones[ZoneOf(p)].cache
  {
    assert CacheOk(zones[ZoneOf(p)].cache, cached, ZoneOf(p));
  }

  // ----- what allocation promises -----

  /** `unknown` stands for any bit outside the valid flags. Zeroing does not touch the allocator's state. */
  datatype Flags = Flags(dma32: bool, zero: bool, unknown: bool)

  /** The first zone is the memory below 4 GiB. */
  lemma LowZone(p: nat)
    ensures ZoneOf(p) == 0 <==> p * FRAME < 0x1_0000_0000
  {
    hide Shr;
    assert Pow2(ZONE_SHIFT) == 0x10_0000 by {
      assert Pow2(10) == 1024 by {
        Pow2Eight();
      }
      Pow2Add(10, 10);
    }
    if p < 0x10_0000 {
      ShrBounds(p, ZONE_SHIFT, 0, 1);
    } else {
      ShrBounds(p, ZONE_SHIFT, 1, p + 1);
    }
  }

  /** A block that starts there lies there. */
  lemma LowBlock(pfn: nat, order: nat)
    requires order <= MAX_ORDER && ZoneOf(pfn) == 0
    ensures forall p: nat | In(p, BlockAt(pfn, order)) :: p * FRAME < 0x1_0000_0000
  {
    hide Shr, ZoneOf;
    forall p: nat | In(p, BlockAt(pfn, order)) ensures p * FRAME < 0x1_0000_0000 {
      SameChunk(p, pfn, BlockAt(pfn, order));
      LowZone(p);
    }
  }

  function ZoneList(flags: Flags): seq<nat> {
    if flags.dma32 then [0] else [1, 0]
  }

  /** The zone has a block of this order, or a frame in its cache when one frame is wanted. */
  ghost predicate CanServe(o: Owners, z: nat, order: nat) {
    !NoneFree(o.free, z, order) || (order == 0 && exists p | p in o.cached :: ZoneOf(p) == z)
  }

  /** One block of available frames, and nothing else, passed to the caller. */
  ghost predicate Granted(o: Owners, o': Owners, pfn: nat, order: nat) {
    var b := BlockAt(pfn, order);
    && Head(b) == pfn && b !in o.alloc && o'.alloc == o.alloc + {b}
    && (forall p: nat :: Available(o, p) <==> Available(o', p) || In(p, b))
    && (forall p: nat | In(p, b) :: !Available(o', p))
  }

  lemma CachedHere(o: Owners, pages: map<nat, Page>, zones: seq<Zone>, z: nat)
    requires AtRest(o, pages, zones) && z < ZONE_COUNT && |zones| == ZONE_COUNT
    ensures zones[z].cache != [] <==> exists p | p in o.cached :: ZoneOf(p) == z
  {
    hide Shr, FramesOk, ListsOk, FreeCounted, ManagedCounted, ZoneOf;
    assert CacheOk(zones[z].cache, o.cached, z);
    if zones[z].cache != [] {
      assert zones[z].cache[0] in zones[z].cache;
    }
  }

  lemma FrontLess(o: Owners, pages: map<nat, Page>, zones: seq<Zone>, z: nat, pfn: nat)
    requires AtRest(o, pages, zones) && z < ZONE_COUNT && |zones| == ZONE_COUNT && zones[z].cache != []
             && zones[z].cache[0] == pfn
    ensures CacheLess(zones[z].cache, zones[z].cache[1..], pfn)
  {
    hide AtRest;
    CachedLess(o, pages, zones, z, 0);
    assert zones[z].cache[..0] + zones[z].cache[1..] == zones[z].cache[1..];
  }

  lemma AllocNotAvailable(o: Owners, pages: map<nat, Page>, b: Block, p: nat)
    requires FramesOk(o, pages) && b in o.alloc && In(p, b)
    ensures !Available(o, p)
  {
    hide Shr, Shl, FrameOk;
    StateOfAlloc(o, pages, b, p);
    if Covered(o.free, p) {
      var c :| c in o.free && In(p, c);
      OneOwner(o, b, c, p);
    }
  }

  lemma CachedNotAlloc(o: Owners, pages: map<nat, Page>, zones: seq<Zone>, p: nat)
    requires AtRest(o, pages, zones) && p in o.cached
    ensures Block(p, 0) !in o.alloc
  {
    hide ListsOk, FreeCounted, ManagedCounted;
    SingleFrame(p, p);
    assert FrameOk(o, p, pages[p]);
  }

  lemma CacheGranted(o: Owners, o1: Owners, o': Owners, pages: map<nat, Page>, zones: seq<Zone>, pfn: nat)
    requires AtRest(o', pages, zones) && pfn in o1.cached && o1.alloc == o.alloc
    requires o' == o1.(cached := o1.cached - {pfn}, alloc := o1.alloc + {Block(pfn, 0)})
    requires forall p: nat :: Available(o1, p) <==> Available(o, p)
    requires Block(pfn, 0) !in o.alloc
    ensures Granted(o, o', pfn, 0)
  {
    hide FramesOk, ListsOk, FreeCounted, ManagedCounted, Covered;
    forall p: nat ensures In(p, Block(pfn, 0)) <==> p == pfn {
      SingleFrame(pfn, p);
    }
    AllocNotAvailable(o', pages, Block(pfn, 0), pfn);
  }

  lemma BuddyGranted(o: Owners, pages: map<nat, Page>, zones: seq<Zone>, taken: Block,
                     o1: Owners, pages1: map<nat, Page>, zones1: seq<Zone>, order: nat)
    requires AtRest(o, pages, zones) && taken in o.free && order <= taken.order
    requires o1 == o.(free := Split(o.free - {taken}, taken, order), moving := {Lowest(taken, order)})
    requires Consistent(o1, pages1, zones1) && Lowest(taken, order).order == order
    ensures Granted(o, o1.(alloc := o1.alloc + {Lowest(taken, order)}, moving := {}), Head(Lowest(taken, order)), order)
  {
    hide Shr, Shl, Split, Lowest, FrameOk, ListsOk, FreeCounted, ManagedCounted, Covered;
    var b := Lowest(taken, order);
    HeadIn(b);
    var o' := o1.(alloc := o1.alloc + {b}, moving := {});
    forall p: nat ensures Available(o, p) <==> Available(o', p) || In(p, b) {
      SplitCovers(o.free, taken, order, p);
    }
    forall p: nat | In(p, b) ensures !Available(o', p) {
      MovingNotAvailable(o1, pages1, b, p);
    }
  }

  lemma MovingNotAvailable(o: Owners, pages: map<nat, Page>, b: Block, p: nat)
    requires FramesOk(o, pages) && b in o.moving && In(p, b)
    ensures !Available(o, p)
  {
    hide Shr, Shl, FrameOk;
    StateOfMoving(o, pages, b, p);
    if Covered(o.free, p) {
      var c :| c in o.free && In(p, c);
      OneOwner(o, b, c, p);
    }
  }

  // ----- what freeing checks -----

  datatype Verdict =
    | Freeable | InvalidPage | BadOrder | Misaligned | OrderMismatch | OwnedPage | DoubleFree | NotHead | ReservedFrame

  ghost predicate OwnedIn(pages: map<nat, Page>, b: Block) {
    exists p | p in pages :: In(p, b) && pages[p].owned
  }

  /** The verdict, told from who owns the frame rather than from what its page says. */
  ghost function FreeVerdict(o: Owners, pages: map<nat, Page>, pfn: nat, order: nat): Verdict {
    var b := BlockAt(pfn, order);
    if pfn !in pages then InvalidPage
    else if order > MAX_ORDER then BadOrder
    else if Head(b) != pfn then Misaligned
    else if Available(o, pfn) then DoubleFree
    else if !Covered(o.alloc, pfn) then ReservedFrame
    else if b in o.alloc then if OwnedIn(pages, b) then OwnedPage else Freeable
    else if exists k :: 0 <= k && IsHead(o.alloc, pfn, k) then OrderMismatch
    else NotHead
  }

  ghost predicate HeadCovers(o: Owners, p: nat, k: nat) {
    exists b | b in o.free && b.order >= k :: In(p, b) && Head(b) == Shl(Shr(p, k), k)
  }

  lemma HeadTest(o: Owners, pages: map<nat, Page>, zones: seq<Zone>, p: nat, k: nat)
    requires AtRest(o, pages, zones) && p in pages && k <= MAX_ORDER
    ensures Shl(Shr(p, k), k) in pages
    ensures (pages[Shl(Shr(p, k), k)].state == BuddyHead && pages[Shl(Shr(p, k), k)].order >= k) <==>
            HeadCovers(o, p, k)
  {
    hide Shr, Shl, ListsOk, FreeCounted, ManagedCounted, CachesOk, FramesOk, Canonical, LegalOrders;
    var c := BlockAt(p, k);
    var h := Head(c);
    HeadIn(c);
    BlockAround(p, k);
    SameChunk(p, h, c);
    if pages[h].state == BuddyHead && pages[h].order >= k {
      HeadFound(o, pages, p, k);
    }
    if HeadCovers(o, p, k) {
      var b :| b in o.free && b.order >= k && In(p, b) && Head(b) == h;
      HeadIn(b);
      StateOfFree(o, pages, b, h);
    }
  }

  lemma HeadFound(o: Owners, pages: map<nat, Page>, p: nat, k: nat)
    requires FramesOk(o, pages) && Head(BlockAt(p, k)) in pages
    requires pages[Head(BlockAt(p, k))].state == BuddyHead && pages[Head(BlockAt(p, k))].order >= k
    ensures HeadCovers(o, p, k)
  {
    hide Shr, Shl, AllApart;
    var h := Head(BlockAt(p, k));
    assert FrameOk(o, h, pages[h]);
    var b := BlockAt(h, pages[h].order);
    HeadIn(BlockAt(p, k));
    ShrShr(p, k, b.order - k);
    ShrShr(h, k, b.order - k);
    assert In(p, b);
  }

  lemma SomeHeadCovers(o: Owners, pages: map<nat, Page>, zones: seq<Zone>, p: nat)
    requires AtRest(o, pages, zones)
    ensures Covered(o.free, p) <==> exists k | 0 <= k <= MAX_ORDER :: HeadCovers(o, p, k)
  {
    hide Shr, Shl, ListsOk, FreeCounted, ManagedCounted, CachesOk, FramesOk;
    if Covered(o.free, p) {
      var b :| b in o.free && In(p, b);
      assert HeadCovers(o, p, b.order);
    }
  }

  /** What each page state says about the frame's owner when nothing is on the move. */
  lemma PageSays(o: Owners, pages: map<nat, Page>, zones: seq<Zone>, p: nat)
    requires AtRest(o, pages, zones) && p in pages
    ensures pages[p].state in {BuddyHead, Cached} ==> Available(o, p)
    ensures pages[p].state == Reserved ==> !Available(o, p) && !Covered(o.alloc, p)
    ensures pages[p].state == Allocated ==>
            !Available(o, p) && Covered(o.alloc, p) && IsHead(o.alloc, p, pages[p].order)
    ensures pages[p].state == Tail ==> p !in o.cached && (Covered(o.free, p) != Covered(o.alloc, p)) && forall k: nat ::
            !IsHead(o.alloc, p, k)
  {
    hide Shr, Shl, ListsOk, FreeCounted, ManagedCounted, CachesOk, ChunkClosed, Canonical;
    assert FrameOk(o, p, pages[p]);
    var k := pages[p].order;
    BlockAround(p, k);
    match pages[p].state {
      case BuddyHead => assert Covered(o.free, p);
      case Cached =>
      case Reserved =>
      case Allocated => AllocNotAvailable(o, pages, BlockAt(p, k), p);
      case Tail => TailSays(o, pages, p);
    }
  }

  lemma TailSays(o: Owners, pages: map<nat, Page>, p: nat)
    requires FramesOk(o, pages) && o.moving == {} && p in pages && pages[p].state == Tail
    ensures (Covered(o.free, p) != Covered(o.alloc, p)) && forall k: nat :: !IsHead(o.alloc, p, k)
  {
    hide Shr, Shl;
    assert FrameOk(o, p, pages[p]);
    if Covered(o.alloc, p) {
      var b :| b in o.alloc && In(p, b);
      AllocNotAvailable(o, pages, b, p);
    }
    assert Covered(o.free, p) || Covered(o.alloc, p);
    forall k: nat ensures !IsHead(o.alloc, p, k) {
      if IsHead(o.alloc, p, k) {
        BlockAround(p, k);
        StateOfAlloc(o, pages, BlockAt(p, k), p);
      }
    }
  }

  /** A frame heads at most one allocated block, so the page's order decides. */
  lemma HeadOrder(o: Owners, pages: map<nat, Page>, zones: seq<Zone>, p: nat, order: nat)
    requires AtRest(o, pages, zones) && p in pages && pages[p].state == Allocated && Head(BlockAt(p, order)) == p
    ensures BlockAt(p, order) in o.alloc <==> pages[p].order == order
  {
    hide Shr, Shl, ListsOk, FreeCounted, ManagedCounted, CachesOk, ChunkClosed, Canonical;
    assert FrameOk(o, p, pages[p]);
    if BlockAt(p, order) in o.alloc {
      BlockAround(p, order);
      StateOfAlloc(o, pages, BlockAt(p, order), p);
    }
  }

  lemma RestAllocNotAvailable(o: Owners, pages: map<nat, Page>, zones: seq<Zone>, b: Block, p: nat)
    requires AtRest(o, pages, zones) && b in o.alloc && In(p, b)
    ensures !Available(o, p)
  {
    hide FramesOk, ListsOk, FreeCounted, ManagedCounted;
    AllocNotAvailable(o, pages, b, p);
  }

  // ----- adding memory -----

  const FRAME := 4096

  /** Every frame of the range has a page and no owner. */
  ghost predicate RangeReserved(o: Owners, pages: map<nat, Page>, start: nat, end: nat) {
    forall p | start <= p < end :: p in pages && !Available(o, p) && !Covered(o.alloc, p)
  }

  lemma EmptyRange(o: Owners, pages: map<nat, Page>, start: nat)
    ensures RangeReserved(o, pages, start, start)
  {
  }

  lemma ReservedIff(o: Owners, pages: map<nat, Page>, zones: seq<Zone>, p: nat)
    requires AtRest(o, pages, zones) && p in pages
    ensures pages[p].state == Reserved <==> !Available(o, p) && !Covered(o.alloc, p)
  {
    hide Shr, Shl, AtRest, Covered;
    PageSays(o, pages, zones, p);
  }

  lemma BlockReserved(o: Owners, pages: map<nat, Page>, zones: seq<Zone>, p: nat, end: nat, order: nat)
    requires AtRest(o, pages, zones) && RangeReserved(o, pages, p, end) && p + Pow2(order) <= end
             && Head(BlockAt(p, order)) == p
    ensures AllReserved(pages, BlockAt(p, order))
  {
    hide Shr, Shl, AtRest, Covered, Pow2;
    forall q: nat | In(q, BlockAt(p, order)) ensures q in pages && pages[q].state == Reserved {
      BlockRange(q, BlockAt(p, order));
      ReservedIff(o, pages, zones, q);
    }
  }

  lemma RangeShrinks(o: Owners, pages: map<nat, Page>, o': Owners, pages': map<nat, Page>, p: nat, end: nat, order: nat)
    requires RangeReserved(o, pages, p, end) && pages'.Keys == pages.Keys && Head(BlockAt(p, order)) == p
    requires o'.alloc == o.alloc && o'.cached == o.cached
    requires forall q: nat :: Covered(o'.free, q) <==> Covered(o.free, q) || In(q, BlockAt(p, order))
    ensures RangeReserved(o', pages', p + Pow2(order), end)
  {
    hide Shr, Shl, Covered, Pow2;
    forall q | p + Pow2(order) <= q < end ensures q in pages' && !Available(o', q) && !Covered(o'.alloc, q) {
      BlockRange(q, BlockAt(p, order));
    }
  }

  function TrailingZeros(v: nat): nat
    requires v > 0
  {
    if v % 2 == 1 then 0 else 1 + TrailingZeros(v / 2)
  }

  lemma {:induction false} TrailingAligned(v: nat, k: nat)
    requires v > 0 && k <= TrailingZeros(v)
    ensures Shl(Shr(v, k), k) == v
    decreases k
  {
    if k > 0 {
      TrailingAligned(v / 2, k - 1);
      ShrHalf(v, k - 1);
    }
  }

  lemma {:induction false} ZeroAligned(k: nat)
    ensures Shl(Shr(0, k), k) == 0
  {
    if k > 0 {
      ZeroAligned(k - 1);
      ShrHalf(0, k - 1);
    }
  }

  /** Opening a block of reserved frames keeps the state consistent, with the block on the move. */
  lemma OpenStep(o: Owners, pages: map<nat, Page>, zones: seq<Zone>, b: Block, pages': map<nat, Page>,
      zones': seq<Zone>)
    requires AtRest(o, pages, zones) && b.order <= MAX_ORDER && AllReserved(pages, b) && Opened(pages, pages', b)
    requires ZoneOfBlock(b) < |zones|
    requires zones' == zones[ZoneOfBlock(b) := zones[ZoneOfBlock(b)].(managedPages := zones[ZoneOfBlock(b)].managedPages
             + Pow2(b.order))]
    ensures Consistent(o.(moving := {b}), pages', zones') && FreeCounted(zones', o.free, pages'.Keys)
  {
    hide Shr, Shl, ZoneOf, FrameOk, Pow2, ListOk, CacheOk, FramesIn, ManagedIn, Canonical, ChunkClosed, Opened,
         AllReserved, AllApart;
    Unreserve(o, pages, b, pages');
    OpenedKeys(pages, pages', b);
    forall z | 0 <= z < ZONE_COUNT ensures zones'[z].managedPages == |ManagedIn(pages', z)| {
      OpenManaged(pages, b, pages', z);
    }
    forall z, k | 0 <= z < ZONE_COUNT && 0 <= k <= MAX_ORDER ensures ListOk(zones'[z].freeList[k], o.free, z, k) {
      assert ListOk(zones[z].freeList[k], o.free, z, k);
    }
  }

  lemma OpenedKeys(pages: map<nat, Page>, pages': map<nat, Page>, b: Block)
    requires Opened(pages, pages', b)
    ensures pages'.Keys == pages.Keys
  {
  }

  lemma OpenManaged(pages: map<nat, Page>, b: Block, pages': map<nat, Page>, z: nat)
    requires b.order <= MAX_ORDER && AllReserved(pages, b) && Opened(pages, pages', b)
    ensures |ManagedIn(pages', z)| == |ManagedIn(pages, z)| + if z == ZoneOfBlock(b) then Pow2(b.order) else 0
  {
    hide Shr, Shl, ZoneOf, FramesOf, Pow2, Head;
    FramesOfBlock(b);
    forall p: nat | In(p, b) ensures ZoneOf(p) == ZoneOfBlock(b) && p in pages && p in pages' {
      FrameZone(p, b);
    }
    if z == ZoneOfBlock(b) {
      assert ManagedIn(pages', z) == ManagedIn(pages, z) + FramesOf(b);
      assert ManagedIn(pages, z) !! FramesOf(b);
    } else {
      assert ManagedIn(pages', z) == ManagedIn(pages, z);
    }
  }

  // ----- the start state -----

  const EMPTY_ZONE := Zone([[], [], [], [], [], [], [], [], [], [], []], 0, 0, [])

  function FramesOfSpans(spans: seq<Span>): (s: set<nat>)
    ensures forall p: nat :: p in s <==> InSpans(spans, p)
  {
    if spans == [] then {}
    else
      var last := spans[|spans| - 1];
      FramesOfSpans(spans[..|spans| - 1]) + set p: nat | p < last.end && InSpan(last, p)
  }

  lemma EmptyAtRest(spans: seq<Span>, pages: map<nat, Page>, zones: seq<Zone>)
    requires SpansOk(spans) && pages.Keys == FramesOfSpans(spans) && zones == [EMPTY_ZONE, EMPTY_ZONE]
    requires forall p | p in pages :: pages[p].state == Reserved
    ensures AtRest(Owners({}, {}, {}, {}), pages, zones)
  {
    hide Shr, Shl, ZoneOf, SpansOk, ListsOk, CachesOk, ChunkClosed, FramesOk, FramesIn, ManagedIn, FramesOfSpans;
    SpansClosed(spans, pages.Keys);
    EmptyLists(zones);
    EmptyFrames(pages);
    EmptyCounts(pages, 0);
    EmptyCounts(pages, 1);
  }

  lemma EmptyFrames(pages: map<nat, Page>)
    requires forall p | p in pages :: pages[p].state == Reserved
    ensures FramesOk(Owners({}, {}, {}, {}), pages)
  {
    hide Shr, Shl;
  }

  lemma EmptyCounts(pages: map<nat, Page>, z: nat)
    requires forall p | p in pages :: pages[p].state == Reserved
    ensures |FramesIn({}, pages.Keys, z)| == 0 == |ManagedIn(pages, z)|
  {
    hide Shr, ZoneOf;
    assert FramesIn({}, pages.Keys, z) == {} && ManagedIn(pages, z) == {};
  }

  lemma EmptyLists(zones: seq<Zone>)
    requires zones == [EMPTY_ZONE, EMPTY_ZONE]
    ensures Shape(zones) && ListsOk(zones, {}) && CachesOk(zones, {})
  {
    hide Shr, Shl, ZoneOf;
    forall z, k | 0 <= z < ZONE_COUNT && 0 <= k <= MAX_ORDER ensures ListOk(zones[z].freeList[k], {}, z, k) {
    }
  }

  // ----- conservation -----

  ghost function Managed(pages: map<nat, Page>): set<nat> {
    set p | p in pages && pages[p].state != Reserved
  }

  ghost function CachedIn(cached: set<nat>, z: nat): set<nat> {
    set p | p in cached && ZoneOf(p) == z
  }

  /** In each zone every managed frame is in exactly one of: a free block, the cache, an allocated block. */
  lemma Conservation(o: Owners, pages: map<nat, Page>, zones: seq<Zone>, z: nat)
    requires AtRest(o, pages, zones) && z < ZONE_COUNT
    ensures |zones| == ZONE_COUNT && |zones[z].cache| == |CachedIn(o.cached, z)|
    ensures ManagedIn(pages, z) == FramesIn(o.free, pages.Keys, z) + CachedIn(o.cached, z)
            + FramesIn(o.alloc, pages.Keys, z)
    ensures FramesIn(o.free, pages.Keys, z) !! CachedIn(o.cached, z) !! FramesIn(o.alloc, pages.Keys, z)
    ensures zones[z].managedPages == zones[z].freePages + |zones[z].cache| + |FramesIn(o.alloc, pages.Keys, z)|
  {
    hide Shr, Shl, ZoneOf, ListsOk, ChunkClosed, Canonical, LegalOrders, AllApart, Covered, FrameOk;
    DistinctCount(zones[z].cache, CachedIn(o.cached, z)) by {
      assert CacheOk(zones[z].cache, o.cached, z);
    }
    forall p | p in pages ensures pages[p].state != Reserved <==> Available(o, p) || Covered(o.alloc, p) {
      ReservedIff(o, pages, zones, p);
    }
    forall p | p in pages ensures !(Covered(o.free, p) && p in o.cached) && !(Available(o, p) && Covered(o.alloc, p)) {
      OwnersDiffer(o, pages, p);
    }
    var f, c, a := FramesIn(o.free, pages.Keys, z), CachedIn(o.cached, z), FramesIn(o.alloc, pages.Keys, z);
    assert ManagedIn(pages, z) == f + c + a;
    assert f !! c && (f + c) !! a;
    hide *;
    ThreeSizes(f, c, a);
    RestSizes(o, pages, zones, z);
  }

  lemma ThreeSizes(f: set<nat>, c: set<nat>, a: set<nat>)
    requires f !! c && (f + c) !! a
    ensures |f + c + a| == |f| + |c| + |a|
  {
    assert |f + c| == |f| + |c|;
  }

  lemma RestSizes(o: Owners, pages: map<nat, Page>, zones: seq<Zone>, z: nat)
    requires AtRest(o, pages, zones) && z < ZONE_COUNT
    ensures |zones| == ZONE_COUNT && zones[z].freePages == |FramesIn(o.free, pages.Keys, z)|
    ensures zones[z].managedPages == |ManagedIn(pages, z)|
  {
  }

  lemma OwnersDiffer(o: Owners, pages: map<nat, Page>, p: nat)
    requires FramesOk(o, pages) && p in pages
    ensures !(Covered(o.free, p) && p in o.cached) && !(Available(o, p) && Covered(o.alloc, p))
  {
    hide Shr, Shl, AllApart;
    assert FrameOk(o, p, pages[p]);
    if Covered(o.alloc, p) {
      var b :| b in o.alloc && In(p, b);
      AllocNotAvailable(o, pages, b, p);
    }
    if p in o.cached {
      CachedState(o, pages, p);
    }
  }

  lemma Totals(o: Owners, pages: map<nat, Page>, zones: seq<Zone>)
    requires AtRest(o, pages, zones) && |zones| == ZONE_COUNT
    ensures zones[0].managedPages + zones[1].managedPages == |Managed(pages)|
    ensures zones[0].freePages + |zones[0].cache| + zones[1].freePages + |zones[1].cache| == |set p | p in pages
            && Available(o, p)|
    ensures |FramesIn(o.alloc, pages.Keys, 0)| + |FramesIn(o.alloc, pages.Keys, 1)| == |set p | p in pages
            && Covered(o.alloc, p)|
  {
    hide Shr, Shl, ZoneOf, FramesOk, Consistent, Covered, ManagedIn, FramesIn, CachedIn, Available;
    Conservation(o, pages, zones, 0);
    Conservation(o, pages, zones, 1);
    TotalManaged(pages);
    TotalCovered(o.alloc, pages);
    TotalAvailable(o, pages) by {
      assert FramesOk(o, pages) by {
        RestFramesOk(o, pages, zones);
      }
    }
    assert zones[0].managedPages == |ManagedIn(pages, 0)| && zones[1].managedPages == |ManagedIn(pages, 1)| by {
      RestManaged(o, pages, zones);
    }
  }

  lemma RestFramesOk(o: Owners, pages: map<nat, Page>, zones: seq<Zone>)
    requires AtRest(o, pages, zones)
    ensures FramesOk(o, pages)
  {
  }

  lemma RestManaged(o: Owners, pages: map<nat, Page>, zones: seq<Zone>)
    requires AtRest(o, pages, zones)
    ensures ManagedCounted(zones, pages)
  {
  }

  lemma TotalManaged(pages: map<nat, Page>)
    ensures |ManagedIn(pages, 0)| + |ManagedIn(pages, 1)| == |Managed(pages)|
  {
    hide Shr;
    TwoZones(Managed(pages), ManagedIn(pages, 0), ManagedIn(pages, 1));
  }

  lemma TotalCovered(blocks: set<Block>, pages: map<nat, Page>)
    ensures |FramesIn(blocks, pages.Keys, 0)| + |FramesIn(blocks, pages.Keys, 1)| == |set p | p in pages
            && Covered(blocks, p)|
  {
    hide Shr, Covered;
    TwoZones((set p | p in pages && Covered(blocks, p)), FramesIn(blocks, pages.Keys, 0),
      FramesIn(blocks, pages.Keys, 1));
  }

  lemma TotalAvailable(o: Owners, pages: map<nat, Page>)
    requires FramesOk(o, pages)
    ensures |FramesIn(o.free, pages.Keys, 0)| + |CachedIn(o.cached, 0)| + |FramesIn(o.free, pages.Keys, 1)|
            + |CachedIn(o.cached, 1)|
         == |set p | p in pages && Available(o, p)|
  {
    hide Shr, Covered, FrameOk;
    TotalCovered(o.free, pages);
    TwoZones(o.cached, CachedIn(o.cached, 0), CachedIn(o.cached, 1));
    var covered := set p | p in pages && Covered(o.free, p);
    forall p | p in o.cached ensures p in pages && !Covered(o.free, p) {
      OwnersDiffer(o, pages, p);
    }
    assert (set p | p in pages && Available(o, p)) == covered + o.cached;
    assert covered !! o.cached;
  }

  lemma TwoZones(whole: set<nat>, low: set<nat>, high: set<nat>)
    requires forall p :: p in low <==> p in whole && ZoneOf(p) == 0
    requires forall p :: p in high <==> p in whole && ZoneOf(p) == 1
    ensures |whole| == |low| + |high|
  {
    assert whole == low + high;
    assert low !! high;
  }

  /** When the same frames are allocated, cached and managed, the same blocks are free: what happened in
      between leaves no trace. */
  lemma FreeBlocksRestored(o: Owners, pages: map<nat, Page>, zones: seq<Zone>, o': Owners, pages': map<nat, Page>,
      zones': seq<Zone>)
    requires AtRest(o, pages, zones) && AtRest(o', pages', zones') && pages'.Keys == pages.Keys
    requires forall p | p in pages :: pages[p].state == Reserved <==> pages'[p].state == Reserved
    requires o'.alloc == o.alloc && o'.cached == o.cached
    ensures o'.free == o.free
  {
    hide Shr, Shl, ListsOk, ChunkClosed, LegalOrders, FrameOk, CachesOk, Canonical, FreeCounted, ManagedCounted;
    forall p: nat ensures Covered(o.free, p) <==> Covered(o'.free, p) {
      if p in pages {
        ReservedIff(o, pages, zones, p);
        ReservedIff(o', pages', zones', p);
        OwnersDiffer(o, pages, p);
        OwnersDiffer(o', pages', p);
      }
    }
    CanonicalUnique(o.free, o'.free);
  }

  // ----- what is managed -----

  /** The managed frames are the owned ones. */
  lemma ManagedOwned(o: Owners, pages: map<nat, Page>, zones: seq<Zone>, p: nat)
    requires AtRest(o, pages, zones) && p in pages
    ensures p in Managed(pages) <==> Available(o, p) || Covered(o.alloc, p)
  {
    hide AtRest, Covered, Available;
    ReservedIff(o, pages, zones, p);
  }

  /** Handing a block out, or taking it back, manages no more and no fewer frames. */
  lemma GrantKeepsManaged(o: Owners, pages: map<nat, Page>, zones: seq<Zone>, o': Owners, pages': map<nat, Page>,
      zones': seq<Zone>, pfn: nat, order: nat)
    requires AtRest(o, pages, zones) && AtRest(o', pages', zones') && pages'.Keys == pages.Keys
             && Granted(o, o', pfn, order)
    ensures Managed(pages') == Managed(pages)
  {
    hide AtRest, Covered, Available, Managed, Shr, Shl;
    forall p | p in pages ensures p in Managed(pages) <==> p in Managed(pages') {
      ManagedOwned(o, pages, zones, p);
      ManagedOwned(o', pages', zones', p);
      CoveredWith(o.alloc, BlockAt(pfn, order), p);
    }
    ManagedHasPages(pages);
    ManagedHasPages(pages');
  }

  lemma SameOwnedManaged(o: Owners, pages: map<nat, Page>, zones: seq<Zone>, o': Owners, pages': map<nat, Page>,
      zones': seq<Zone>)
    requires AtRest(o, pages, zones) && AtRest(o', pages', zones') && pages'.Keys == pages.Keys
    requires o'.alloc == o.alloc && forall p: nat :: Available(o', p) <==> Available(o, p)
    ensures Managed(pages') == Managed(pages)
  {
    hide AtRest, Covered, Available, Managed, Shr, Shl;
    forall p | p in pages ensures p in Managed(pages) <==> p in Managed(pages') {
      ManagedOwned(o, pages, zones, p);
      ManagedOwned(o', pages', zones', p);
    }
    ManagedHasPages(pages);
    ManagedHasPages(pages');
  }

  lemma ManagedHasPages(pages: map<nat, Page>)
    ensures Managed(pages) <= pages.Keys
  {
  }

  ghost function FrameRange(start: nat, end: nat): (s: set<nat>) {
    set p: nat | p < end && InSpan(Span(start, end), p)
  }

  lemma {:induction false} FrameRangeSize(start: nat, end: nat)
    requires start <= end
    ensures |FrameRange(start, end)| == end - start
    decreases end
  {
    if start == end {
      assert FrameRange(start, end) == {};
    } else {
      FrameRangeSize(start, end - 1);
      assert FrameRange(start, end) == FrameRange(start, end - 1) + {end - 1};
    }
  }

  lemma RangeAddsManaged(o: Owners, pages: map<nat, Page>, zones: seq<Zone>, o': Owners, pages': map<nat, Page>,
      zones': seq<Zone>, start: nat, end: nat)
    requires AtRest(o, pages, zones) && AtRest(o', pages', zones') && pages'.Keys == pages.Keys
    requires RangeReserved(o, pages, start, end) && o'.alloc == o.alloc && o'.cached == o.cached
    requires forall p: nat :: Covered(o'.free, p) <==> Covered(o.free, p) || start <= p < end
    ensures Managed(pages') == Managed(pages) + FrameRange(start, end) && Managed(pages) !! FrameRange(start, end)
  {
    hide AtRest, Covered, Managed, Shr, Shl;
    forall p | p in pages ensures p in Managed(pages') <==> p in Managed(pages) || start <= p < end {
      ManagedOwned(o, pages, zones, p);
      ManagedOwned(o', pages', zones', p);
    }
    forall p | p in pages && start <= p < end ensures p !in Managed(pages) {
      ManagedOwned(o, pages, zones, p);
    }
    ManagedHasPages(pages);
    ManagedHasPages(pages');
  }
}
