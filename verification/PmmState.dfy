/** The allocator's state as a value: zones, free lists, counters, and how each moves with a block. */
module PmmState {
  import opened Bits
  import opened BuddyBlocks
  import opened FrameStates
  import opened Sequences

  const ZONE_SHIFT := 20
  const ZONE_COUNT := 2

  /** 0 is the zone below 4 GiB, 1 the rest. */
  function ZoneOf(p: nat): nat {
    if Shr(p, ZONE_SHIFT) == 0 then 0 else 1
  }

  /** Free lists and the per-CPU cache hold frame numbers, front first. */
  datatype Zone = Zone(freeList: seq<seq<nat>>, freePages: nat, managedPages: nat, cache: seq<nat>)

  // ----- frames of a block -----

  ghost function FramesOf(b: Block): set<nat>
    decreases b.order
  {
    if b.order == 0 then {b.index} else FramesOf(Left(b)) + FramesOf(Right(b))
  }

  lemma {:induction false} FramesOfBlock(b: Block)
    ensures forall p: nat :: p in FramesOf(b) <==> In(p, b)
    ensures |FramesOf(b)| == Pow2(b.order)
    decreases b.order
  {
    if b.order > 0 {
      FramesOfBlock(Left(b));
      FramesOfBlock(Right(b));
      forall p: nat ensures p in FramesOf(b) <==> In(p, b) {
        FrameHalves(p, b);
      }
      assert FramesOf(Left(b)) !! FramesOf(Right(b));
    }
  }

  lemma {:induction false} ShlNext(i: nat, k: nat)
    ensures Shl(i + 1, k) == Shl(i, k) + Pow2(k)
  {
    if k > 0 {
      ShlNext(i, k - 1);
    }
  }

  lemma {:induction false} ShlDouble(i: nat, k: nat)
    ensures Shl(2 * i, k) == Shl(i, k + 1)
  {
    if k > 0 {
      ShlDouble(i, k - 1);
    }
  }

  lemma {:induction false} InRange(p: nat, i: nat, k: nat)
    ensures Shr(p, k) == i <==> Shl(i, k) <= p < Shl(i, k) + Pow2(k)
    decreases k
  {
    if k > 0 {
      InRange(p, 2 * i, k - 1);
      InRange(p, 2 * i + 1, k - 1);
      ShlDouble(i, k - 1);
      ShlNext(2 * i, k - 1);
    }
  }

  /** A block's frames are the run of 2^order frames at its head. */
  lemma BlockRange(p: nat, b: Block)
    ensures In(p, b) <==> Head(b) <= p < Head(b) + Pow2(b.order)
  {
    InRange(p, b.index, b.order);
  }

  lemma RightHead(b: Block)
    requires b.order > 0
    ensures Head(Left(b)) == Head(b) && Head(Right(b)) == Head(b) + Pow2(b.order - 1)
  {
    ShlDouble(b.index, b.order - 1);
    ShlNext(2 * b.index, b.order - 1);
  }

  function FlipBit(v: nat, k: nat): nat {
    if Shr(v, k) % 2 == 0 then v + Pow2(k) else if v >= Pow2(k) then v - Pow2(k) else 0
  }

  function ClearBit(v: nat, k: nat): nat {
    if Shr(v, k) % 2 == 0 then v else if v >= Pow2(k) then v - Pow2(k) else 0
  }

  /** Flipping bit `order` of a head gives the buddy's head; clearing it gives the parent's. */
  lemma BuddyHeads(b: Block)
    ensures FlipBit(Head(b), b.order) == Head(Buddy(b)) && ClearBit(Head(b), b.order) == Head(Parent(b))
  {
    ParentHalves(b);
    HeadIn(b);
    RightHead(Parent(b));
  }

  // ----- zones -----

  /** No block of legal order crosses a zone boundary or the end of a span of whole top-order blocks. */
  lemma SameChunk(p: nat, q: nat, b: Block)
    requires In(p, b) && In(q, b) && b.order <= MAX_ORDER
    ensures Shr(p, MAX_ORDER) == Shr(q, MAX_ORDER) && ZoneOf(p) == ZoneOf(q)
  {
    ShrShr(p, b.order, MAX_ORDER - b.order);
    ShrShr(q, b.order, MAX_ORDER - b.order);
    ShrShr(p, b.order, ZONE_SHIFT - b.order);
    ShrShr(q, b.order, ZONE_SHIFT - b.order);
  }

  function ZoneOfBlock(b: Block): nat {
    ZoneOf(Head(b))
  }

  lemma FrameZone(p: nat, b: Block)
    requires In(p, b) && b.order <= MAX_ORDER
    ensures ZoneOf(p) == ZoneOfBlock(b)
  {
    HeadIn(b);
    SameChunk(p, Head(b), b);
  }

  lemma RelativeZones(b: Block)
    ensures b.order < MAX_ORDER ==> ZoneOfBlock(Parent(b)) == ZoneOfBlock(b) == ZoneOfBlock(Buddy(b))
    ensures 0 < b.order <= MAX_ORDER ==> ZoneOfBlock(Left(b)) == ZoneOfBlock(b) == ZoneOfBlock(Right(b))
  {
    hide Shr, Shl, ZoneOf;
    HeadIn(b);
    if b.order < MAX_ORDER {
      ParentHalves(b);
      HeadIn(Buddy(b));
      FrameHalves(Head(b), Parent(b));
      FrameHalves(Head(Buddy(b)), Parent(b));
      FrameZone(Head(b), Parent(b));
      FrameZone(Head(Buddy(b)), Parent(b));
    }
    if 0 < b.order <= MAX_ORDER {
      HeadIn(Left(b));
      HeadIn(Right(b));
      FrameHalves(Head(Left(b)), b);
      FrameHalves(Head(Right(b)), b);
      FrameZone(Head(Left(b)), b);
      FrameZone(Head(Right(b)), b);
    }
  }

  // ----- free lists -----

  /** The list holds the heads of exactly the free blocks of its zone and order, once each. */
  ghost predicate ListOk(list: seq<nat>, free: set<Block>, z: nat, k: nat) {
    && Distinct(list)
    && forall h: nat :: h in list <==> IsHead(free, h, k) && ZoneOf(h) == z
  }

  predicate Shape(zones: seq<Zone>) {
    |zones| == ZONE_COUNT && forall z | 0 <= z < ZONE_COUNT :: |zones[z].freeList| == MAX_ORDER + 1
  }

  ghost predicate ListsOk(zones: seq<Zone>, free: set<Block>) {
    && Shape(zones)
    && forall z, k | 0 <= z < ZONE_COUNT && 0 <= k <= MAX_ORDER :: ListOk(zones[z].freeList[k], free, z, k)
  }

  function WithList(zones: seq<Zone>, z: nat, k: nat, list: seq<nat>): (r: seq<Zone>)
    requires Shape(zones) && z < ZONE_COUNT && k <= MAX_ORDER
    ensures Shape(r)
  {
    zones[z := zones[z].(freeList := zones[z].freeList[k := list])]
  }

  lemma HeadsWith(free: set<Block>, b: Block, h: nat, k: nat)
    ensures IsHead(free + {b}, h, k) <==> IsHead(free, h, k) || (k == b.order && h == Head(b))
  {
    HeadIn(b);
  }

  lemma HeadsWithout(free: set<Block>, b: Block, h: nat, k: nat)
    ensures IsHead(free - {b}, h, k) <==> IsHead(free, h, k) && !(k == b.order && h == Head(b))
  {
    HeadIn(b);
  }

  lemma PushFree(zones: seq<Zone>, free: set<Block>, b: Block)
    requires ListsOk(zones, free) && b !in free && b.order <= MAX_ORDER
    ensures ListsOk(WithList(zones, ZoneOfBlock(b), b.order, [Head(b)] + zones[ZoneOfBlock(b)].freeList[b.order]),
            free + {b})
  {
    hide Shr, Shl, ZoneOf, IsHead, Head;
    assert ZoneOfBlock(b) < ZONE_COUNT by {
      ZoneBound(Head(b));
    }
    var y := ZoneOfBlock(b);
    var list := [Head(b)] + zones[y].freeList[b.order];
    var zones' := WithList(zones, y, b.order, list);
    assert ListOk(zones[y].freeList[b.order], free, y, b.order);
    NotHeadYet(free, b);
    forall z, k | 0 <= z < ZONE_COUNT && 0 <= k <= MAX_ORDER ensures ListOk(zones'[z].freeList[k], free + {b}, z, k) {
      assert ListOk(zones[z].freeList[k], free, z, k);
      forall h: nat ensures h in zones'[z].freeList[k] <==> IsHead(free + {b}, h, k) && ZoneOf(h) == z {
        HeadsWith(free, b, h, k);
      }
    }
  }

  lemma NotHeadYet(free: set<Block>, b: Block)
    requires b !in free
    ensures !IsHead(free, Head(b), b.order)
  {
    HeadIn(b);
  }

  lemma ZoneBound(p: nat)
    ensures ZoneOf(p) < ZONE_COUNT
  {
  }

  lemma DropFree(zones: seq<Zone>, free: set<Block>, b: Block)
    requires ListsOk(zones, free) && b in free && b.order <= MAX_ORDER
    ensures ListsOk(WithList(zones, ZoneOfBlock(b), b.order, Without(zones[ZoneOfBlock(b)].freeList[b.order], Head(b))),
            free - {b})
  {
    hide Shr, Shl, ZoneOf, IsHead, Head, Without;
    assert ZoneOfBlock(b) < ZONE_COUNT by {
      ZoneBound(Head(b));
    }
    var y := ZoneOfBlock(b);
    assert ListOk(zones[y].freeList[b.order], free, y, b.order);
    WithoutOne(zones[y].freeList[b.order], Head(b));
    var zones' := WithList(zones, y, b.order, Without(zones[y].freeList[b.order], Head(b)));
    forall z, k | 0 <= z < ZONE_COUNT && 0 <= k <= MAX_ORDER ensures ListOk(zones'[z].freeList[k], free - {b}, z, k) {
      assert ListOk(zones[z].freeList[k], free, z, k);
      forall h: nat ensures h in zones'[z].freeList[k] <==> IsHead(free - {b}, h, k) && ZoneOf(h) == z {
        HeadsWithout(free, b, h, k);
      }
    }
  }

  // ----- counters -----

  /** The frames of a zone inside the given blocks. */
  ghost function FramesIn(blocks: set<Block>, keys: set<nat>, z: nat): set<nat> {
    set p | p in keys && ZoneOf(p) == z && Covered(blocks, p)
  }

  ghost predicate FreeCounted(zones: seq<Zone>, blocks: set<Block>, keys: set<nat>) {
    |zones| == ZONE_COUNT && forall z | 0 <= z < ZONE_COUNT :: zones[z].freePages == |FramesIn(blocks, keys, z)|
  }

  ghost function ManagedIn(pages: map<nat, Page>, z: nat): set<nat> {
    set p | p in pages && ZoneOf(p) == z && pages[p].state != Reserved
  }

  ghost predicate ManagedCounted(zones: seq<Zone>, pages: map<nat, Page>) {
    |zones| == ZONE_COUNT && forall z | 0 <= z < ZONE_COUNT :: zones[z].managedPages == |ManagedIn(pages, z)|
  }

  /** Adding a block adds its 2^order frames to its own zone. */
  lemma CountBlock(blocks: set<Block>, keys: set<nat>, b: Block, z: nat)
    requires ApartFrom(blocks, b) && b.order <= MAX_ORDER && forall p: nat | In(p, b) :: p in keys
    ensures |FramesIn(blocks + {b}, keys, z)| == |FramesIn(blocks, keys, z)| + if z == ZoneOfBlock(b) then Pow2(b.order)
            else 0
  {
    hide Shr, Shl, ZoneOf, FramesOf, Pow2, Head;
    FramesOfBlock(b);
    forall p: nat ensures Covered(blocks + {b}, p) <==> Covered(blocks, p) || In(p, b) {
      CoveredWith(blocks, b, p);
    }
    forall p: nat | In(p, b) ensures ZoneOf(p) == ZoneOfBlock(b) && !Covered(blocks, p) {
      FrameZone(p, b);
      ApartUncovered(blocks, b, p);
    }
    if z == ZoneOfBlock(b) {
      assert FramesIn(blocks + {b}, keys, z) == FramesIn(blocks, keys, z) + FramesOf(b);
      assert FramesIn(blocks, keys, z) !! FramesOf(b);
    } else {
      assert FramesIn(blocks + {b}, keys, z) == FramesIn(blocks, keys, z);
    }
  }

  lemma CoveredWith(blocks: set<Block>, b: Block, p: nat)
    ensures Covered(blocks + {b}, p) <==> Covered(blocks, p) || In(p, b)
  {
    hide Shr;
    assert b in blocks + {b};
    if Covered(blocks, p) {
      var c :| c in blocks && In(p, c);
      assert c in blocks + {b};
    }
  }

  lemma ApartUncovered(blocks: set<Block>, b: Block, p: nat)
    requires ApartFrom(blocks, b) && In(p, b)
    ensures !Covered(blocks, p)
  {
    hide Shr;
    if Covered(blocks, p) {
      var c :| c in blocks && In(p, c);
      SharedFrame(p, b, c);
    }
  }

  // ----- the per-CPU cache -----

  ghost predicate CacheOk(cache: seq<nat>, cached: set<nat>, z: nat) {
    && Distinct(cache)
    && forall p :: p in cache <==> p in cached && ZoneOf(p) == z
  }

  ghost predicate CachesOk(zones: seq<Zone>, cached: set<nat>) {
    |zones| == ZONE_COUNT && forall z | 0 <= z < ZONE_COUNT :: CacheOk(zones[z].cache, cached, z)
  }

  ghost predicate ChunkClosed(keys: set<nat>) {
    forall p, q: nat | Shr(p, MAX_ORDER) == Shr(q, MAX_ORDER) :: p in keys ==> q in keys
  }

  // ----- the whole state -----

  ghost predicate LegalOrders(o: Owners) {
    forall b | b in o.free + o.alloc + o.moving :: b.order <= MAX_ORDER
  }

  /** Everything but the free-page counters. */
  ghost predicate Consistent(o: Owners, pages: map<nat, Page>, zones: seq<Zone>) {
    && FramesOk(o, pages) && Canonical(o.free) && LegalOrders(o)
    && Shape(zones) && ListsOk(zones, o.free) && CachesOk(zones, o.cached)
    && ChunkClosed(pages.Keys) && ManagedCounted(zones, pages)
  }

  ghost predicate AtRest(o: Owners, pages: map<nat, Page>, zones: seq<Zone>) {
    o.moving == {} && Consistent(o, pages, zones) && FreeCounted(zones, o.free, pages.Keys)
  }

  // ----- one move of a block, on the whole state -----

  lemma SameCover(s: set<Block>, t: set<Block>, keys: set<nat>, z: nat)
    requires forall p: nat :: Covered(s, p) <==> Covered(t, p)
    ensures FramesIn(s, keys, z) == FramesIn(t, keys, z)
  {
  }

  lemma StillCounted(zones: seq<Zone>, zones': seq<Zone>, s: set<Block>, t: set<Block>, keys: set<nat>)
    requires FreeCounted(zones, s, keys) && |zones'| == ZONE_COUNT
    requires forall z | 0 <= z < ZONE_COUNT :: zones'[z].freePages == zones[z].freePages
    requires forall p: nat :: Covered(s, p) <==> Covered(t, p)
    ensures FreeCounted(zones', t, keys)
  {
    hide ZoneOf, Covered, FramesIn;
    forall z | 0 <= z < ZONE_COUNT ensures zones'[z].freePages == |FramesIn(t, keys, z)| {
      SameCover(s, t, keys, z);
    }
  }

  /** Writing one page changes no managed count unless it changes whether the page is reserved. */
  lemma StillManaged(zones: seq<Zone>, zones': seq<Zone>, pages: map<nat, Page>, p: nat, page: Page)
    requires ManagedCounted(zones, pages) && |zones'| == ZONE_COUNT && p in pages
    requires forall z | 0 <= z < ZONE_COUNT :: zones'[z].managedPages == zones[z].managedPages
    requires page.state == Reserved <==> pages[p].state == Reserved
    ensures ManagedCounted(zones', pages[p := page]) && pages[p := page].Keys == pages.Keys
  {
    hide ZoneOf;
    assert pages[p := page].Keys == pages.Keys;
    forall z | 0 <= z < ZONE_COUNT ensures zones'[z].managedPages == |ManagedIn(pages[p := page], z)| {
      assert ManagedIn(pages[p := page], z) == ManagedIn(pages, z);
    }
  }

  lemma StillCached(zones: seq<Zone>, zones': seq<Zone>, cached: set<nat>)
    requires CachesOk(zones, cached) && |zones'| == ZONE_COUNT
    requires forall z | 0 <= z < ZONE_COUNT :: zones'[z].cache == zones[z].cache
    ensures CachesOk(zones', cached)
  {
    hide CacheOk;
  }

  lemma MovingApart(o: Owners, b: Block)
    requires AllApart(o) && b in o.moving
    ensures ApartFrom(o.free, b) && b !in o.free
  {
  }

  function Marked(pages: map<nat, Page>, h: nat, state: PageState, order: nat): map<nat, Page>
    requires h in pages
  {
    pages[h := pages[h].(state := state, order := order)]
  }

  function Pushed(zones: seq<Zone>, b: Block): (r: seq<Zone>)
    requires Shape(zones) && b.order <= MAX_ORDER
    ensures Shape(r)
  {
    ZoneBound(Head(b));
    WithList(zones, ZoneOfBlock(b), b.order, [Head(b)] + zones[ZoneOfBlock(b)].freeList[b.order])
  }

  function Dropped(zones: seq<Zone>, b: Block): (r: seq<Zone>)
    requires Shape(zones) && b.order <= MAX_ORDER
    ensures Shape(r)
  {
    ZoneBound(Head(b));
    WithList(zones, ZoneOfBlock(b), b.order, Without(zones[ZoneOfBlock(b)].freeList[b.order], Head(b)))
  }

  lemma ListMovesOnly(zones: seq<Zone>, b: Block)
    requires Shape(zones) && b.order <= MAX_ORDER
    ensures |Pushed(zones, b)| == ZONE_COUNT == |Dropped(zones, b)|
    ensures forall z | 0 <= z < ZONE_COUNT :: Pushed(zones, b)[z].(freeList := []) == zones[z].(freeList := [])
    ensures forall z | 0 <= z < ZONE_COUNT :: Dropped(zones, b)[z].(freeList := []) == zones[z].(freeList := [])
  {
  }

  /** The free buddy is absorbed. */
  lemma MergeStep(o: Owners, pages: map<nat, Page>, zones: seq<Zone>, b: Block)
    requires Consistent(o, pages, zones) && o.moving == {b} && b.order < MAX_ORDER && Buddy(b) in o.free
    requires FreeCounted(zones, o.free + {b}, pages.Keys)
    ensures Head(Buddy(b)) in pages
    ensures Consistent(o.(free := o.free - {Buddy(b)}, moving := {Parent(b)}), Marked(pages, Head(Buddy(b)), Tail, 0),
            Dropped(zones, Buddy(b)))
    ensures FreeCounted(Dropped(zones, Buddy(b)), o.free - {Buddy(b)} + {Parent(b)}, pages.Keys)
    ensures Marked(pages, Head(Buddy(b)), Tail, 0).Keys == pages.Keys
  {
    hide Shr, Shl, ZoneOf, FrameOk, Inside, Canonical, AllApart, ListsOk, CachesOk, ManagedIn, FramesIn, Covered, Apart,
         Dropped, Pushed;
    var c := Buddy(b);
    var zones' := Dropped(zones, c);
    AbsorbBuddy(o, pages, b);
    MovingApart(o, b);
    MergeStepApart(o.free, b);
    DropFreeZones(zones, o.free, c);
    ListMovesOnly(zones, c);
    StillCached(zones, zones', o.cached);
    StillManaged(zones, zones', pages, Head(c), pages[Head(c)].(state := Tail, order := 0)) by {
      HeadIn(c);
      StateOfFree(o, pages, c, Head(c));
    }
    forall p: nat ensures Covered(o.free + {b}, p) <==> Covered(o.free - {c} + {Parent(b)}, p) {
      CoveredWith(o.free, b, p);
      CoveredWith(o.free - {c}, Parent(b), p);
      CoveredWith(o.free - {c}, c, p);
      assert o.free - {c} + {c} == o.free;
      ParentHalves(b);
      FrameHalves(p, Parent(b));
    }
    StillCounted(zones, zones', o.free + {b}, o.free - {c} + {Parent(b)}, pages.Keys);
  }

  lemma DropFreeZones(zones: seq<Zone>, free: set<Block>, b: Block)
    requires ListsOk(zones, free) && b in free && b.order <= MAX_ORDER
    ensures ListsOk(Dropped(zones, b), free - {b})
  {
    hide Shr, Shl, ZoneOf, ListOk;
    DropFree(zones, free, b);
  }

  lemma PushFreeZones(zones: seq<Zone>, free: set<Block>, b: Block)
    requires ListsOk(zones, free) && b !in free && b.order <= MAX_ORDER
    ensures ListsOk(Pushed(zones, b), free + {b})
  {
    hide Shr, Shl, ZoneOf, ListOk;
    PushFree(zones, free, b);
  }

  /** Merging is over: the block goes onto its free list. */
  lemma LandStep(o: Owners, pages: map<nat, Page>, zones: seq<Zone>, b: Block)
    requires Consistent(o, pages, zones) && o.moving == {b} && (b.order == MAX_ORDER || Buddy(b) !in o.free)
    requires FreeCounted(zones, o.free + {b}, pages.Keys)
    ensures Head(b) in pages && b.order <= MAX_ORDER
    ensures AtRest(o.(free := o.free + {b}, moving := {}), Marked(pages, Head(b), BuddyHead, b.order), Pushed(zones, b))
    ensures Marked(pages, Head(b), BuddyHead, b.order).Keys == pages.Keys
  {
    hide Shr, Shl, ZoneOf, FrameOk, Inside, Canonical, AllApart, ListsOk, CachesOk, ManagedIn, FramesIn, Covered, Apart,
         Dropped, Pushed;
    var zones' := Pushed(zones, b);
    LandFree(o, pages, b);
    MovingApart(o, b);
    MergeCanonical(o.free, b);
    PushFreeZones(zones, o.free, b);
    ListMovesOnly(zones, b);
    StillCached(zones, zones', o.cached);
    StillManaged(zones, zones', pages, Head(b), pages[Head(b)].(state := BuddyHead, order := b.order)) by {
      HeadIn(b);
      StateOfMoving(o, pages, b, Head(b));
    }
    StillCounted(zones, zones', o.free + {b}, o.free + {b}, pages.Keys);
  }

  /** A free block leaves its list. */
  lemma TakeStep(o: Owners, pages: map<nat, Page>, zones: seq<Zone>, b: Block)
    requires AtRest(o, pages, zones) && b in o.free
    ensures Head(b) in pages && b.order <= MAX_ORDER
    ensures Consistent(o.(free := o.free - {b}, moving := {b}), Marked(pages, Head(b), Tail, 0), Dropped(zones, b))
    ensures FreeCounted(Dropped(zones, b), o.free - {b} + {b}, pages.Keys)
    ensures Marked(pages, Head(b), Tail, 0).Keys == pages.Keys
  {
    hide Shr, Shl, ZoneOf, FrameOk, Inside, AllApart, ListsOk, CachesOk, ManagedIn, FramesIn, Covered, Apart, Dropped,
         Pushed;
    var zones' := Dropped(zones, b);
    TakeFree(o, pages, b);
    DropFreeZones(zones, o.free, b);
    ListMovesOnly(zones, b);
    StillCached(zones, zones', o.cached);
    StillManaged(zones, zones', pages, Head(b), pages[Head(b)].(state := Tail, order := 0)) by {
      HeadIn(b);
      StateOfFree(o, pages, b, Head(b));
    }
    assert o.free - {b} + {b} == o.free;
    StillCounted(zones, zones', o.free, o.free, pages.Keys);
  }

  /** The upper half of a block goes onto its free list. */
  lemma SplitStep(o: Owners, pages: map<nat, Page>, zones: seq<Zone>, b: Block)
    requires Consistent(o, pages, zones) && o.moving == {b} && b.order > 0
    requires FreeCounted(zones, o.free + {b}, pages.Keys)
    ensures Head(Right(b)) in pages && b.order <= MAX_ORDER
    ensures Consistent(o.(free := o.free + {Right(b)}, moving := {Left(b)}),
            Marked(pages, Head(Right(b)), BuddyHead, b.order - 1), Pushed(zones, Right(b)))
    ensures FreeCounted(Pushed(zones, Right(b)), o.free + {Right(b)} + {Left(b)}, pages.Keys)
    ensures Marked(pages, Head(Right(b)), BuddyHead, b.order - 1).Keys == pages.Keys
  {
    hide Shr, Shl, ZoneOf, FrameOk, Inside, Canonical, AllApart, ListsOk, CachesOk, ManagedIn, FramesIn, Covered, Apart,
         Dropped, Pushed;
    var r := Right(b);
    var zones' := Pushed(zones, r);
    SplitOff(o, pages, b);
    MovingApart(o, b);
    SplitStepApart(o.free, b);
    assert r !in o.free by {
      HalvesInside(b);
      InsideSelf(r);
      NotInFree(o.free, b, r);
    }
    PushFreeZones(zones, o.free, r);
    ListMovesOnly(zones, r);
    StillCached(zones, zones', o.cached);
    StillManaged(zones, zones', pages, Head(r), pages[Head(r)].(state := BuddyHead, order := b.order - 1)) by {
      HeadIn(r);
      FrameHalves(Head(r), b);
      StateOfMoving(o, pages, b, Head(r));
    }
    forall p: nat ensures Covered(o.free + {b}, p) <==> Covered(o.free + {r} + {Left(b)}, p) {
      CoveredWith(o.free, b, p);
      CoveredWith(o.free, r, p);
      CoveredWith(o.free + {r}, Left(b), p);
      FrameHalves(p, b);
    }
    StillCounted(zones, zones', o.free + {b}, o.free + {r} + {Left(b)}, pages.Keys);
  }

  lemma NotInFree(free: set<Block>, b: Block, c: Block)
    requires ApartFrom(free, b) && Inside(c, b)
    ensures c !in free
  {
  }

  /** A block on the move becomes allocated. */
  lemma GrantStep(o: Owners, pages: map<nat, Page>, zones: seq<Zone>, b: Block)
    requires Consistent(o, pages, zones) && o.moving == {b} && FreeCounted(zones, o.free, pages.Keys)
    ensures Head(b) in pages
    ensures AtRest(o.(alloc := o.alloc + {b}, moving := {}), Marked(pages, Head(b), Allocated, b.order), zones)
  {
    hide Shr, Shl, ZoneOf, FrameOk, Inside, Canonical, AllApart, ListsOk, CachesOk, ManagedIn, FramesIn, Covered, Apart;
    HandOut(o, pages, b);
    StillManaged(zones, zones, pages, Head(b), pages[Head(b)].(state := Allocated, order := b.order)) by {
      HeadIn(b);
      StateOfMoving(o, pages, b, Head(b));
    }
  }

  /** An allocated block is put on the move. */
  lemma TakeBackStep(o: Owners, pages: map<nat, Page>, zones: seq<Zone>, b: Block)
    requires AtRest(o, pages, zones) && b in o.alloc
    ensures Head(b) in pages && b.order <= MAX_ORDER
    ensures Consistent(o.(alloc := o.alloc - {b}, moving := {b}), Marked(pages, Head(b), Tail, 0), zones)
    ensures Marked(pages, Head(b), Tail, 0).Keys == pages.Keys
  {
    hide Shr, Shl, ZoneOf, FrameOk, Inside, Canonical, AllApart, ListsOk, CachesOk, ManagedIn, FramesIn, Covered, Apart;
    TakeAlloc(o, pages, b);
    StillManaged(zones, zones, pages, Head(b), pages[Head(b)].(state := Tail, order := 0)) by {
      HeadIn(b);
      StateOfAlloc(o, pages, b, Head(b));
    }
  }

  // ----- the cache -----

  function WithCache(zones: seq<Zone>, z: nat, cache: seq<nat>): seq<Zone>
    requires z < |zones|
  {
    zones[z := zones[z].(cache := cache)]
  }

  lemma CacheMovesOnly(zones: seq<Zone>, free: set<Block>, z: nat, cache: seq<nat>)
    requires ListsOk(zones, free) && z < ZONE_COUNT
    ensures ListsOk(WithCache(zones, z, cache), free)
    ensures forall y | 0 <= y < ZONE_COUNT :: WithCache(zones, z, cache)[y].(cache := []) == zones[y].(cache := [])
  {
    hide ListOk;
    var zones' := WithCache(zones, z, cache);
    forall y, k | 0 <= y < ZONE_COUNT && 0 <= k <= MAX_ORDER ensures ListOk(zones'[y].freeList[k], free, y, k) {
      assert ListOk(zones[y].freeList[k], free, y, k);
    }
  }

  /** A frame on the move goes to the front of its zone's cache. */
  lemma CachePutStep(o: Owners, pages: map<nat, Page>, zones: seq<Zone>, p: nat, order: nat)
    requires Consistent(o, pages, zones) && o.moving == {Block(p, 0)} && FreeCounted(zones, o.free, pages.Keys)
    requires p in pages ==> order == 0 || order == pages[p].order
    ensures p in pages && ZoneOf(p) < ZONE_COUNT
    ensures AtRest(o.(cached := o.cached + {p}, moving := {}), Marked(pages, p, Cached, order),
                   WithCache(zones, ZoneOf(p), [p] + zones[ZoneOf(p)].cache))
    ensures Marked(pages, p, Cached, order).Keys == pages.Keys
  {
    hide Shl, Inside, Canonical, AllApart, ListsOk, ManagedIn, FramesIn, Covered, Apart;
    var z := ZoneOf(p);
    var zones' := WithCache(zones, z, [p] + zones[z].cache);
    assert p !in o.cached by {
      StateOfMoving(o, pages, Block(p, 0), p);
    }
    PutInCache(o, pages, p);
    CacheMovesOnly(zones, o.free, z, [p] + zones[z].cache);
    StillManaged(zones, zones', pages, p, pages[p].(state := Cached, order := order)) by {
      StateOfMoving(o, pages, Block(p, 0), p);
    }
    CachePutLists(zones, o.cached, p);
    StillCounted(zones, zones', o.free, o.free, pages.Keys);
  }

  lemma CachePutLists(zones: seq<Zone>, cached: set<nat>, p: nat)
    requires CachesOk(zones, cached) && p !in cached
    ensures ZoneOf(p) < ZONE_COUNT && CachesOk(WithCache(zones, ZoneOf(p), [p] + zones[ZoneOf(p)].cache), cached + {p})
  {
    hide Shr;
    var z := ZoneOf(p);
    var zones' := WithCache(zones, z, [p] + zones[z].cache);
    forall y | 0 <= y < ZONE_COUNT ensures CacheOk(zones'[y].cache, cached + {p}, y) {
      assert CacheOk(zones[y].cache, cached, y);
    }
  }

  /** `rest` is `cache` less the frame `p`. */
  ghost predicate CacheLess(cache: seq<nat>, rest: seq<nat>, p: nat) {
    p in cache && Distinct(rest) && forall q :: q in rest <==> q in cache && q != p
  }

  lemma CacheTakeLists(zones: seq<Zone>, cached: set<nat>, z: nat, rest: seq<nat>, p: nat)
    requires CachesOk(zones, cached) && z < ZONE_COUNT && CacheLess(zones[z].cache, rest, p)
    ensures p in cached && ZoneOf(p) == z && CachesOk(WithCache(zones, z, rest), cached - {p})
  {
    hide Shr;
    var zones' := WithCache(zones, z, rest);
    assert CacheOk(zones[z].cache, cached, z);
    forall y | 0 <= y < ZONE_COUNT ensures CacheOk(zones'[y].cache, cached - {p}, y) {
      assert CacheOk(zones[y].cache, cached, y);
    }
  }

  /** A cached frame is put on the move. */
  lemma CacheTakeStep(o: Owners, pages: map<nat, Page>, zones: seq<Zone>, z: nat, rest: seq<nat>, p: nat)
    requires AtRest(o, pages, zones) && z < ZONE_COUNT && CacheLess(zones[z].cache, rest, p)
    ensures p in o.cached && p in pages && ZoneOf(p) == z
    ensures Consistent(o.(cached := o.cached - {p}, moving := {Block(p, 0)}), Marked(pages, p, Tail, pages[p].order),
            WithCache(zones, z, rest))
    ensures FreeCounted(WithCache(zones, z, rest), o.free, pages.Keys)
    ensures Marked(pages, p, Tail, pages[p].order).Keys == pages.Keys
  {
    hide Shr, Shl, ZoneOf, Inside, Canonical, AllApart, ListsOk, ManagedIn, FramesIn, Covered, Apart;
    var zones' := WithCache(zones, z, rest);
    CacheTakeLists(zones, o.cached, z, rest, p);
    TakeCached(o, pages, p);
    CacheMovesOnly(zones, o.free, z, rest);
    StillManaged(zones, zones', pages, p, pages[p].(state := Tail)) by {
      assert FrameOk(o, p, pages[p]);
      CachedState(o, pages, p);
    }
    StillCounted(zones, zones', o.free, o.free, pages.Keys);
  }

  lemma CachedState(o: Owners, pages: map<nat, Page>, p: nat)
    requires FramesOk(o, pages) && p in o.cached
    ensures p in pages && pages[p].state == Cached
  {
    assert FrameOk(o, p, pages[p]);
  }

  /** A cached frame is handed out as a block of order 0. */
  lemma CacheGrantStep(o: Owners, pages: map<nat, Page>, zones: seq<Zone>, z: nat, rest: seq<nat>, p: nat)
    requires AtRest(o, pages, zones) && z < ZONE_COUNT && CacheLess(zones[z].cache, rest, p)
    ensures p in o.cached && p in pages && ZoneOf(p) == z
    ensures AtRest(o.(cached := o.cached - {p}, alloc := o.alloc + {Block(p, 0)}), Marked(pages, p, Allocated, 0),
            WithCache(zones, z, rest))
  {
    hide Shr, ZoneOf, AtRest, Consistent, FreeCounted, CacheLess;
    RestMeansStill(o, pages, zones);
    CacheTakeStep(o, pages, zones, z, rest, p);
    var o1 := o.(cached := o.cached - {p}, moving := {Block(p, 0)});
    var pages1 := Marked(pages, p, Tail, pages[p].order);
    GrantStep(o1, pages1, WithCache(zones, z, rest), Block(p, 0));
    assert Marked(pages1, p, Allocated, 0) == Marked(pages, p, Allocated, 0);
  }

  lemma RestMeansStill(o: Owners, pages: map<nat, Page>, zones: seq<Zone>)
    requires AtRest(o, pages, zones)
    ensures o.moving == {} && |zones| == ZONE_COUNT
  {
  }
}
