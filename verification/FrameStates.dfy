/** Who owns each page frame, and the ways a block of frames changes hands. */
module FrameStates {
  import opened Bits
  import opened BuddyBlocks

  datatype PageState = Reserved | Tail | BuddyHead | Cached | Allocated

  /** `owned` stands for the slab and vmalloc ownership flags. */
  datatype Page = Page(state: PageState, order: nat, owned: bool)

  /** The first frame of a block. */
  function Head(b: Block): nat {
    Shl(b.index, b.order)
  }

  /** The block of the given order around a frame. */
  function BlockAt(p: nat, k: nat): Block {
    Block(Shr(p, k), k)
  }

  lemma {:induction false} ShrShl(i: nat, k: nat)
    ensures Shr(Shl(i, k), k) == i
  {
    if k > 0 {
      ShrShl(i, k - 1);
      assert Shr(Shl(i, k), k) == Shr(Shl(i, k) / 2, k - 1) by {
        ShrHalf(Shl(i, k), k - 1);
      }
    }
  }

  lemma HeadIn(b: Block)
    ensures In(Head(b), b) && BlockAt(Head(b), b.order) == b
  {
    ShrShl(b.index, b.order);
  }

  // ----- the partition -----

  /** Who has what: free blocks, allocated blocks, cached frames, and at most one block on the move. */
  datatype Owners = Owners(free: set<Block>, alloc: set<Block>, cached: set<nat>, moving: set<Block>)

  ghost predicate IsHead(blocks: set<Block>, p: nat, k: nat) {
    BlockAt(p, k) in blocks && Head(BlockAt(p, k)) == p
  }

  ghost predicate Interior(blocks: set<Block>, p: nat) {
    exists b | b in blocks :: In(p, b) && Head(b) != p
  }

  /** The page's state says exactly which owner its frame has. */
  ghost predicate FrameOk(o: Owners, p: nat, page: Page) {
    match page.state
    case Reserved => !Covered(o.free, p) && !Covered(o.alloc, p) && !Covered(o.moving, p) && p !in o.cached
    case Cached => !Covered(o.free, p) && !Covered(o.alloc, p) && !Covered(o.moving, p) && p in o.cached
    case BuddyHead => IsHead(o.free, p, page.order) && p !in o.cached
    case Allocated => IsHead(o.alloc, p, page.order) && p !in o.cached
    case Tail => (Interior(o.free, p) || Interior(o.alloc, p) || Covered(o.moving, p)) && p !in o.cached
  }

  ghost predicate AllApart(o: Owners) {
    && o.free !! o.alloc && o.free !! o.moving && o.alloc !! o.moving
    && forall b, c | b in o.free + o.alloc + o.moving && c in o.free + o.alloc + o.moving && b != c :: Apart(b, c)
  }

  ghost predicate FramesOk(o: Owners, pages: map<nat, Page>) {
    && AllApart(o)
    && (forall p | p in pages :: FrameOk(o, p, pages[p]))
    && (forall b, p: nat | b in o.free + o.alloc + o.moving && In(p, b) :: p in pages)
    && (forall p | p in o.cached :: p in pages)
  }

  lemma OneOwner(o: Owners, b: Block, c: Block, p: nat)
    requires AllApart(o) && b in o.free + o.alloc + o.moving && c in o.free + o.alloc + o.moving
    requires In(p, b) && In(p, c)
    ensures b == c
  {
    if b != c {
      SharedFrame(p, b, c);
    }
  }

  // ----- what a frame's owner says about its page -----

  lemma BlockAround(p: nat, k: nat)
    ensures In(p, BlockAt(p, k))
  {
  }

  lemma StateOfFree(o: Owners, pages: map<nat, Page>, b: Block, p: nat)
    requires FramesOk(o, pages) && b in o.free && In(p, b)
    ensures p in pages && p !in o.cached
    ensures if p == Head(b) then pages[p].state == BuddyHead && pages[p].order == b.order else pages[p].state == Tail
  {
    hide Shr, Shl;
    assert FrameOk(o, p, pages[p]);
    assert Covered(o.free, p);
    StateOfOwned(o, pages, b, p);
    if p == Head(b) {
      HeadIn(b);
      HeadIsNoInterior(o, b, p);
    }
  }

  lemma StateOfAlloc(o: Owners, pages: map<nat, Page>, b: Block, p: nat)
    requires FramesOk(o, pages) && b in o.alloc && In(p, b)
    ensures p in pages && p !in o.cached
    ensures if p == Head(b) then pages[p].state == Allocated && pages[p].order == b.order else pages[p].state == Tail
  {
    hide Shr, Shl;
    assert FrameOk(o, p, pages[p]);
    assert Covered(o.alloc, p);
    StateOfOwned(o, pages, b, p);
    if p == Head(b) {
      HeadIn(b);
      HeadIsNoInterior(o, b, p);
    }
  }

  lemma StateOfMoving(o: Owners, pages: map<nat, Page>, b: Block, p: nat)
    requires FramesOk(o, pages) && b in o.moving && In(p, b)
    ensures p in pages && pages[p].state == Tail && p !in o.cached
  {
    hide Shr, Shl;
    assert FrameOk(o, p, pages[p]);
    assert Covered(o.moving, p);
    StateOfOwned(o, pages, b, p);
  }

  /** If a page names a head, the block it names is the one the frame is in. */
  lemma StateOfOwned(o: Owners, pages: map<nat, Page>, b: Block, p: nat)
    requires FramesOk(o, pages) && b in o.free + o.alloc + o.moving && In(p, b) && p in pages
    ensures pages[p].state == BuddyHead ==> b in o.free && pages[p].order == b.order && p == Head(b)
    ensures pages[p].state == Allocated ==> b in o.alloc && pages[p].order == b.order && p == Head(b)
  {
    hide Shr, Shl;
    assert FrameOk(o, p, pages[p]);
    if pages[p].state == BuddyHead || pages[p].state == Allocated {
      var c := BlockAt(p, pages[p].order);
      BlockAround(p, pages[p].order);
      OneOwner(o, b, c, p);
    }
  }

  lemma HeadIsNoInterior(o: Owners, b: Block, p: nat)
    requires AllApart(o) && b in o.free + o.alloc && In(p, b) && p == Head(b)
    ensures !Interior(o.free, p) && !Interior(o.alloc, p) && !Covered(o.moving, p)
  {
    hide Shr, Shl;
    forall c | c in o.free + o.alloc + o.moving && In(p, c) ensures c == b {
      OneOwner(o, b, c, p);
    }
  }

  /** The two block sets agree around frame `p`. */
  ghost predicate SameAt(s: set<Block>, t: set<Block>, p: nat) {
    forall b | In(p, b) :: b in s <==> b in t
  }

  lemma FrameUnaffected(o: Owners, o': Owners, p: nat, page: Page)
    requires FrameOk(o, p, page) && SameAt(o.free, o'.free, p) && SameAt(o.alloc, o'.alloc, p)
    requires SameAt(o.moving, o'.moving, p) && (p in o.cached <==> p in o'.cached)
    ensures FrameOk(o', p, page)
  {
    hide Shr, Shl;
    BlockAround(p, page.order);
  }

  // ----- a block changes hands -----

  /** A block on the move joins its free buddy, whose head becomes an ordinary page. */
  lemma AbsorbBuddy(o: Owners, pages: map<nat, Page>, b: Block)
    requires FramesOk(o, pages) && o.moving == {b} && Buddy(b) in o.free
    ensures Head(Buddy(b)) in pages
    ensures FramesOk(o.(free := o.free - {Buddy(b)}, moving := {Parent(b)}),
                     pages[Head(Buddy(b)) := pages[Head(Buddy(b))].(state := Tail, order := 0)])
  {
    hide Shr, Shl;
    var c := Buddy(b);
    HeadIn(c);
    var o' := o.(free := o.free - {c}, moving := {Parent(b)});
    var h := Head(c);
    StateOfFree(o, pages, c, h);
    var pages' := pages[h := pages[h].(state := Tail, order := 0)];
    AbsorbApart(o, b);
    forall p: nat ensures In(p, Parent(b)) <==> In(p, b) || In(p, c) {
      ParentHalves(b);
      FrameHalves(p, Parent(b));
    }
    forall p | p in pages ensures FrameOk(o', p, pages'[p]) {
      if In(p, b) {
        StateOfMoving(o, pages, b, p);
      } else if In(p, c) {
        StateOfFree(o, pages, c, p);
      } else {
        FrameUnaffected(o, o', p, pages[p]);
      }
    }
  }

  lemma AbsorbApart(o: Owners, b: Block)
    requires AllApart(o) && o.moving == {b} && Buddy(b) in o.free
    ensures AllApart(o.(free := o.free - {Buddy(b)}, moving := {Parent(b)}))
  {
    hide Shr;
    var c := Buddy(b);
    var rest := o.free - {c} + o.alloc;
    forall x | x in rest ensures Apart(x, Parent(b)) && Apart(Parent(b), x) && x != Parent(b) {
      ParentHalves(b);
      HalvesInside(Parent(b));
      InsideSelf(x);
      assert Apart(x, b) && Apart(x, c);
      if Inside(x, Parent(b)) {
        InsideHalves(x, Parent(b));
      }
      if Inside(Parent(b), x) {
        InsideTrans(b, Parent(b), x);
      }
    }
  }

  /** A block on the move becomes free. */
  lemma LandFree(o: Owners, pages: map<nat, Page>, b: Block)
    requires FramesOk(o, pages) && o.moving == {b}
    ensures Head(b) in pages
    ensures FramesOk(o.(free := o.free + {b}, moving := {}),
                     pages[Head(b) := pages[Head(b)].(state := BuddyHead, order := b.order)])
  {
    hide Shr, Shl;
    HeadIn(b);
    StateOfMoving(o, pages, b, Head(b));
    var o' := o.(free := o.free + {b}, moving := {});
    var pages' := pages[Head(b) := pages[Head(b)].(state := BuddyHead, order := b.order)];
    forall p | p in pages ensures FrameOk(o', p, pages'[p]) {
      if In(p, b) {
        StateOfMoving(o, pages, b, p);
      } else {
        FrameUnaffected(o, o', p, pages[p]);
      }
    }
  }

  /** A block on the move is handed out. */
  lemma HandOut(o: Owners, pages: map<nat, Page>, b: Block)
    requires FramesOk(o, pages) && o.moving == {b}
    ensures Head(b) in pages
    ensures FramesOk(o.(alloc := o.alloc + {b}, moving := {}),
                     pages[Head(b) := pages[Head(b)].(state := Allocated, order := b.order)])
  {
    hide Shr, Shl;
    HeadIn(b);
    StateOfMoving(o, pages, b, Head(b));
    var o' := o.(alloc := o.alloc + {b}, moving := {});
    var pages' := pages[Head(b) := pages[Head(b)].(state := Allocated, order := b.order)];
    forall p | p in pages ensures FrameOk(o', p, pages'[p]) {
      if In(p, b) {
        StateOfMoving(o, pages, b, p);
      } else {
        FrameUnaffected(o, o', p, pages[p]);
      }
    }
  }

  /** A free block is taken off its list. */
  lemma TakeFree(o: Owners, pages: map<nat, Page>, b: Block)
    requires FramesOk(o, pages) && o.moving == {} && b in o.free
    ensures Head(b) in pages
    ensures FramesOk(o.(free := o.free - {b}, moving := {b}),
            pages[Head(b) := pages[Head(b)].(state := Tail, order := 0)])
  {
    hide Shr, Shl;
    HeadIn(b);
    StateOfFree(o, pages, b, Head(b));
    var o' := o.(free := o.free - {b}, moving := {b});
    var pages' := pages[Head(b) := pages[Head(b)].(state := Tail, order := 0)];
    forall p | p in pages ensures FrameOk(o', p, pages'[p]) {
      if In(p, b) {
        StateOfFree(o, pages, b, p);
      } else {
        FrameUnaffected(o, o', p, pages[p]);
      }
    }
  }

  /** An allocated block is taken back. */
  lemma TakeAlloc(o: Owners, pages: map<nat, Page>, b: Block)
    requires FramesOk(o, pages) && o.moving == {} && b in o.alloc
    ensures Head(b) in pages
    ensures FramesOk(o.(alloc := o.alloc - {b}, moving := {b}),
            pages[Head(b) := pages[Head(b)].(state := Tail, order := 0)])
  {
    hide Shr, Shl;
    HeadIn(b);
    StateOfAlloc(o, pages, b, Head(b));
    var o' := o.(alloc := o.alloc - {b}, moving := {b});
    var pages' := pages[Head(b) := pages[Head(b)].(state := Tail, order := 0)];
    forall p | p in pages ensures FrameOk(o', p, pages'[p]) {
      if In(p, b) {
        StateOfAlloc(o, pages, b, p);
      } else {
        FrameUnaffected(o, o', p, pages[p]);
      }
    }
  }

  /** The upper half of a block on the move becomes free; the lower half moves on. */
  lemma SplitOff(o: Owners, pages: map<nat, Page>, b: Block)
    requires FramesOk(o, pages) && o.moving == {b} && b.order > 0
    ensures Head(Right(b)) in pages
    ensures FramesOk(o.(free := o.free + {Right(b)}, moving := {Left(b)}),
                     pages[Head(Right(b)) := pages[Head(Right(b))].(state := BuddyHead, order := b.order - 1)])
  {
    hide Shr, Shl;
    var l, r := Left(b), Right(b);
    HalvesInside(b);
    HeadIn(r);
    InsideFrames(Head(r), r, b);
    StateOfMoving(o, pages, b, Head(r));
    var o' := o.(free := o.free + {r}, moving := {l});
    var pages' := pages[Head(r) := pages[Head(r)].(state := BuddyHead, order := b.order - 1)];
    SplitApart(o, b);
    forall p: nat ensures In(p, b) <==> In(p, l) || In(p, r) {
      FrameHalves(p, b);
    }
    forall p | p in pages ensures FrameOk(o', p, pages'[p]) {
      if In(p, b) {
        StateOfMoving(o, pages, b, p);
        NotBoth(p, b);
      } else {
        FrameUnaffected(o, o', p, pages[p]);
      }
    }
  }

  lemma NotBoth(p: nat, b: Block)
    requires b.order > 0
    ensures !(In(p, Left(b)) && In(p, Right(b)))
  {
  }

  lemma SplitApart(o: Owners, b: Block)
    requires AllApart(o) && o.moving == {b} && b.order > 0
    ensures AllApart(o.(free := o.free + {Right(b)}, moving := {Left(b)}))
  {
    hide Shr;
    var l, r := Left(b), Right(b);
    HalvesInside(b);
    forall x | x in o.free + o.alloc ensures Apart(x, l) && Apart(l, x) && Apart(x, r) && Apart(r, x) && x != l
      && x != r {
      ApartInside(x, b, l);
      ApartInside(x, b, r);
      InsideSelf(x);
    }
  }

  /** A single frame on the move goes into the cache. */
  lemma PutInCache(o: Owners, pages: map<nat, Page>, p: nat)
    requires FramesOk(o, pages) && o.moving == {Block(p, 0)}
    ensures p in pages
    ensures FramesOk(o.(cached := o.cached + {p}, moving := {}), pages[p := pages[p].(state := Cached)])
    ensures FramesOk(o.(cached := o.cached + {p}, moving := {}), pages[p := pages[p].(state := Cached, order := 0)])
  {
    hide Shl;
    var b := Block(p, 0);
    StateOfMoving(o, pages, b, p);
    var o' := o.(cached := o.cached + {p}, moving := {});
    forall q | q in pages && q != p ensures FrameOk(o', q, pages[q]) {
      FrameUnaffected(o, o', q, pages[q]);
    }
    forall c | c in o.free + o.alloc ensures !In(p, c) {
      if In(p, c) {
        OneOwner(o, b, c, p);
      }
    }
  }

  /** A cached frame is taken out. */
  lemma TakeCached(o: Owners, pages: map<nat, Page>, p: nat)
    requires FramesOk(o, pages) && o.moving == {} && p in o.cached
    ensures p in pages
    ensures FramesOk(o.(cached := o.cached - {p}, moving := {Block(p, 0)}), pages[p := pages[p].(state := Tail)])
  {
    hide Shl;
    var b := Block(p, 0);
    var o' := o.(cached := o.cached - {p}, moving := {b});
    assert FrameOk(o, p, pages[p]);
    TakeOneApart(o, b, p);
    forall q | q in pages && q != p ensures FrameOk(o', q, pages[q]) {
      FrameUnaffected(o, o', q, pages[q]);
    }
  }

  lemma TakeOneApart(o: Owners, b: Block, p: nat)
    requires AllApart(o) && o.moving == {} && b == Block(p, 0) && !Covered(o.free, p) && !Covered(o.alloc, p)
    ensures AllApart(o.(moving := {b}))
  {
    forall x | x in o.free + o.alloc ensures Apart(x, b) && Apart(b, x) && x != b {
      assert !In(p, x);
      assert In(p, b);
      if Inside(b, x) {
        InsideFrames(p, b, x);
      }
    }
  }

  // ----- frames enter for the first time -----

  /** The pages of `b` become ordinary ones. */
  ghost predicate Opened(pages: map<nat, Page>, pages': map<nat, Page>, b: Block) {
    && pages'.Keys == pages.Keys
    && forall p | p in pages :: pages'[p] == if In(p, b) then pages[p].(state := Tail) else pages[p]
  }

  ghost predicate AllReserved(pages: map<nat, Page>, b: Block) {
    forall p: nat | In(p, b) :: p in pages && pages[p].state == Reserved
  }

  /** A block of reserved frames is put on the move. */
  lemma Unreserve(o: Owners, pages: map<nat, Page>, b: Block, pages': map<nat, Page>)
    requires FramesOk(o, pages) && o.moving == {} && AllReserved(pages, b) && Opened(pages, pages', b)
    ensures FramesOk(o.(moving := {b}), pages')
  {
    hide Shr, Shl;
    var o' := o.(moving := {b});
    forall c | c in o.free + o.alloc ensures Apart(b, c) && c != b {
      UnreservedApart(o, pages, b, c);
    }
    OneMoving(o, b);
    forall x, p: nat | x in o'.free + o'.alloc + o'.moving && In(p, x) ensures p in pages' {
      assert x != b ==> x in o.free + o.alloc + o.moving;
    }
    forall p | p in pages' ensures FrameOk(o', p, pages'[p]) {
      assert FrameOk(o, p, pages[p]);
      if In(p, b) {
        assert pages[p].state == Reserved;
      } else {
        FrameUnaffected(o, o', p, pages[p]);
      }
    }
  }

  lemma OneMoving(o: Owners, b: Block)
    requires AllApart(o) && o.moving == {} && forall c | c in o.free + o.alloc :: Apart(b, c) && c != b
    ensures AllApart(o.(moving := {b}))
  {
    hide Inside;
    var o' := o.(moving := {b});
    assert b in o.free ==> b in o.free + o.alloc;
    assert b in o.alloc ==> b in o.free + o.alloc;
    forall x, y | x in o'.free + o'.alloc + o'.moving && y in o'.free + o'.alloc + o'.moving && x != y
      ensures Apart(x, y) {
      ApartSym(x, y);
      assert x != b ==> x in o.free + o.alloc;
      assert y != b ==> y in o.free + o.alloc;
    }
  }

  lemma UnreservedApart(o: Owners, pages: map<nat, Page>, b: Block, c: Block)
    requires FramesOk(o, pages) && AllReserved(pages, b) && c in o.free + o.alloc
    ensures Apart(b, c) && c != b
  {
    hide Shr, Shl;
    forall p: nat | In(p, c) ensures !In(p, b) {
      assert FrameOk(o, p, pages[p]);
      assert Covered(o.free, p) || Covered(o.alloc, p);
    }
    HeadIn(b);
    HeadIn(c);
    if Inside(b, c) {
      InsideFrames(Head(b), b, c);
    }
    if Inside(c, b) {
      InsideFrames(Head(c), c, b);
    }
  }
}
