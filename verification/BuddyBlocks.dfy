/** Naturally aligned blocks of frames: merging, splitting, and why the free blocks are determined by the
    free frames. */
module BuddyBlocks {
  import opened Bits

  const MAX_ORDER := 10

  /** The 2^order frames whose number shifted right by `order` is `index`. */
  datatype Block = Block(index: nat, order: nat)

  predicate In(f: nat, b: Block) {
    Shr(f, b.order) == b.index
  }

  function Flip(i: nat): nat {
    if i % 2 == 0 then i + 1 else i - 1
  }

  function Buddy(b: Block): Block {
    Block(Flip(b.index), b.order)
  }

  function Parent(b: Block): Block {
    Block(b.index / 2, b.order + 1)
  }

  function Left(b: Block): Block
    requires b.order > 0
  {
    Block(2 * b.index, b.order - 1)
  }

  function Right(b: Block): Block
    requires b.order > 0
  {
    Block(2 * b.index + 1, b.order - 1)
  }

  /** Every frame of `b` is in `c`. */
  predicate Inside(b: Block, c: Block) {
    b.order <= c.order && Shr(b.index, c.order - b.order) == c.index
  }

  predicate Apart(b: Block, c: Block) {
    !Inside(b, c) && !Inside(c, b)
  }

  ghost predicate ApartFrom(blocks: set<Block>, b: Block) {
    forall c | c in blocks :: Apart(b, c)
  }

  ghost predicate Covered(blocks: set<Block>, f: nat) {
    exists b | b in blocks :: In(f, b)
  }

  /** Blocks are disjoint, of legal order, and no two buddies below the top order are both free. */
  ghost predicate Canonical(blocks: set<Block>) {
    && (forall b | b in blocks :: b.order <= MAX_ORDER && (b.order < MAX_ORDER ==> Buddy(b) !in blocks))
    && (forall b, c | b in blocks && c in blocks && b != c :: Apart(b, c))
  }

  // ----- shifts -----

  lemma {:induction false} ShrShr(v: nat, m: nat, n: nat)
    ensures Shr(Shr(v, m), n) == Shr(v, m + n)
  {
    if n > 0 {
      ShrShr(v, m, n - 1);
    }
  }

  lemma InsideFrames(f: nat, b: Block, c: Block)
    requires Inside(b, c) && In(f, b)
    ensures In(f, c)
  {
    ShrShr(f, b.order, c.order - b.order);
  }

  lemma SharedFrame(f: nat, b: Block, c: Block)
    requires In(f, b) && In(f, c)
    ensures !Apart(b, c)
  {
    if b.order <= c.order {
      ShrShr(f, b.order, c.order - b.order);
    } else {
      ShrShr(f, c.order, b.order - c.order);
    }
  }

  lemma InsideTrans(b: Block, c: Block, d: Block)
    requires Inside(b, c) && Inside(c, d)
    ensures Inside(b, d)
  {
    ShrShr(b.index, c.order - b.order, d.order - c.order);
  }

  /** What is inside a block is the block, or inside one of its halves. */
  lemma InsideHalves(b: Block, c: Block)
    requires Inside(b, c)
    ensures b == c || (c.order > 0 && (Inside(b, Left(c)) || Inside(b, Right(c))))
  {
    if b.order < c.order {
      var d := c.order - b.order;
      assert Shr(b.index, d) == Shr(b.index, d - 1) / 2;
    }
  }

  lemma HalvesInside(b: Block)
    requires b.order > 0
    ensures Inside(Left(b), b) && Inside(Right(b), b) && Apart(Left(b), Right(b))
    ensures Parent(Left(b)) == b == Parent(Right(b)) && Buddy(Left(b)) == Right(b) && Buddy(Right(b)) == Left(b)
  {
    assert Shr(2 * b.index, 1) == Shr(2 * b.index, 0) / 2;
    assert Shr(2 * b.index + 1, 1) == Shr(2 * b.index + 1, 0) / 2;
  }

  lemma ParentHalves(b: Block)
    ensures || (Left(Parent(b)) == b && Right(Parent(b)) == Buddy(b))
            || (Left(Parent(b)) == Buddy(b) && Right(Parent(b)) == b)
  {
  }

  lemma FrameHalves(f: nat, b: Block)
    requires b.order > 0
    ensures In(f, b) <==> In(f, Left(b)) || In(f, Right(b))
  {
    assert Shr(f, b.order) == Shr(f, b.order - 1) / 2;
  }

  /** What is apart from a block is apart from everything inside it. */
  lemma ApartInside(b: Block, c: Block, d: Block)
    requires Apart(b, c) && Inside(d, c)
    ensures Apart(b, d)
  {
    if Inside(b, d) {
      InsideTrans(b, d, c);
    }
    if Inside(d, b) {
      InsideNested(d, b, c);
    }
  }

  /** Two blocks around a third are nested. */
  lemma InsideNested(d: Block, b: Block, c: Block)
    requires Inside(d, b) && Inside(d, c)
    ensures Inside(b, c) || Inside(c, b)
  {
    if b.order <= c.order {
      ShrShr(d.index, b.order - d.order, c.order - b.order);
    } else {
      ShrShr(d.index, c.order - d.order, b.order - c.order);
    }
  }

  // ----- freeing -----

  /** Adds a block, merging it with its buddy as long as that is free too. */
  ghost function Merge(blocks: set<Block>, b: Block): set<Block>
    decreases MAX_ORDER - b.order
  {
    if b.order < MAX_ORDER && Buddy(b) in blocks then Merge(blocks - {Buddy(b)}, Parent(b)) else blocks + {b}
  }

  lemma MergeStepApart(blocks: set<Block>, b: Block)
    requires Canonical(blocks) && ApartFrom(blocks, b) && Buddy(b) in blocks
    ensures Canonical(blocks - {Buddy(b)}) && ApartFrom(blocks - {Buddy(b)}, Parent(b))
  {
    hide Shr;
    forall c | c in blocks && c != Buddy(b) ensures Apart(Parent(b), c) {
      ParentHalves(b);
      HalvesInside(Parent(b));
      if Inside(c, Parent(b)) {
        InsideHalves(c, Parent(b));
      }
      if Inside(Parent(b), c) {
        InsideTrans(b, Parent(b), c);
      }
    }
  }

  /** Freeing keeps the free blocks canonical and adds exactly the block's frames. */
  lemma {:induction false} MergeCanonical(blocks: set<Block>, b: Block)
    requires Canonical(blocks) && ApartFrom(blocks, b) && b.order <= MAX_ORDER
    ensures Canonical(Merge(blocks, b))
    ensures forall f :: Covered(Merge(blocks, b), f) <==> Covered(blocks, f) || In(f, b)
    decreases MAX_ORDER - b.order
  {
    hide Shr;
    if b.order < MAX_ORDER && Buddy(b) in blocks {
      MergeStepApart(blocks, b);
      MergeCanonical(blocks - {Buddy(b)}, Parent(b));
      forall f ensures Covered(Merge(blocks, b), f) <==> Covered(blocks, f) || In(f, b) {
        ParentHalves(b);
        FrameHalves(f, Parent(b));
        assert In(f, Buddy(b)) ==> Covered(blocks, f);
        if Covered(blocks, f) {
          var c :| c in blocks && In(f, c);
          assert c != Buddy(b) ==> c in blocks - {Buddy(b)};
        }
      }
    } else {
      forall f ensures Covered(blocks + {b}, f) <==> Covered(blocks, f) || In(f, b) {
        if Covered(blocks, f) {
          var c :| c in blocks && In(f, c);
          assert c in blocks + {b};
        }
        assert b in blocks + {b};
      }
      BuddyBack(b);
    }
  }

  lemma BuddyBack(b: Block)
    ensures Buddy(Buddy(b)) == b && Buddy(b) != b
    ensures forall c :: Buddy(c) == b ==> c == Buddy(b)
  {
  }

  // ----- allocating -----

  /** Splits a block down to `order`, keeping the lower half each time and freeing the upper one. */
  ghost function Split(blocks: set<Block>, b: Block, order: nat): set<Block>
    requires order <= b.order
    decreases b.order
  {
    if b.order == order then blocks else Split(blocks + {Right(b)}, Left(b), order)
  }

  ghost function Lowest(b: Block, order: nat): Block
    requires order <= b.order
    decreases b.order
  {
    if b.order == order then b else Lowest(Left(b), order)
  }

  lemma SplitStepApart(blocks: set<Block>, b: Block)
    requires Canonical(blocks) && ApartFrom(blocks, b) && 0 < b.order <= MAX_ORDER
    ensures Canonical(blocks + {Right(b)}) && ApartFrom(blocks + {Right(b)}, Left(b))
  {
    hide Shr;
    HalvesInside(b);
    forall c | c in blocks ensures Apart(Right(b), c) && Apart(Left(b), c) {
      ApartSym(b, c);
      ApartInside(c, b, Right(b));
      ApartInside(c, b, Left(b));
    }
    assert Left(b) !in blocks by {
      assert Inside(Left(b), Left(b)) by {
        InsideSelf(Left(b));
      }
    }
    BuddyBack(Right(b));
  }

  lemma ApartSym(b: Block, c: Block)
    ensures Apart(b, c) == Apart(c, b)
  {
  }

  lemma InsideSelf(b: Block)
    ensures Inside(b, b)
  {
  }

  /** Allocating keeps the free blocks canonical and takes exactly the block's frames. */
  lemma {:induction false} SplitCanonical(blocks: set<Block>, b: Block, order: nat)
    requires Canonical(blocks) && ApartFrom(blocks, b) && order <= b.order <= MAX_ORDER
    ensures Canonical(Split(blocks, b, order)) && ApartFrom(Split(blocks, b, order), Lowest(b, order))
    ensures Lowest(b, order).order == order
    ensures forall f :: Covered(Split(blocks, b, order), f) || In(f, Lowest(b, order)) <==>
            Covered(blocks, f) || In(f, b)
    decreases b.order
  {
    hide Shr;
    if b.order > order {
      SplitStepApart(blocks, b);
      SplitCanonical(blocks + {Right(b)}, Left(b), order);
      forall f ensures Covered(blocks + {Right(b)}, f) || In(f, Left(b)) <==> Covered(blocks, f) || In(f, b) {
        FrameHalves(f, b);
        assert Right(b) in blocks + {Right(b)};
        if Covered(blocks, f) {
          var c :| c in blocks && In(f, c);
          assert c in blocks + {Right(b)};
        }
      }
    }
  }

  // ----- uniqueness -----

  /** A block whose frames are all free lies inside one free block. */
  lemma {:induction false} WholeBlock(blocks: set<Block>, b: Block) returns (c: Block)
    requires Canonical(blocks) && b.order <= MAX_ORDER && forall f | In(f, b) :: Covered(blocks, f)
    ensures c in blocks && Inside(b, c)
    decreases b.order
  {
    if b.order == 0 {
      assert In(b.index, b);
      c :| c in blocks && In(b.index, c);
    } else {
      forall f | In(f, Left(b)) || In(f, Right(b)) ensures Covered(blocks, f) {
        FrameHalves(f, b);
      }
      HalvesInside(b);
      var l := WholeBlock(blocks, Left(b));
      var r := WholeBlock(blocks, Right(b));
      if l != Left(b) {
        c := l;
        InsideParent(Left(b), l);
      } else if r != Right(b) {
        c := r;
        InsideParent(Right(b), r);
      } else {
        assert false;
      }
    }
  }

  lemma InsideParent(b: Block, c: Block)
    requires Inside(b, c) && b != c
    ensures Inside(Parent(b), c)
  {
    assert b.order < c.order;
    ShrHalf(b.index, c.order - b.order - 1);
  }

  lemma CoveredBlock(blocks: set<Block>, b: Block)
    requires b in blocks
    ensures forall f | In(f, b) :: Covered(blocks, f)
  {
  }

  lemma InsideBoth(b: Block, c: Block)
    requires Inside(b, c) && Inside(c, b)
    ensures b == c
  {
  }

  lemma SubsetOfSameFrames(blocks: set<Block>, others: set<Block>)
    requires Canonical(blocks) && Canonical(others)
    requires forall f :: Covered(blocks, f) <==> Covered(others, f)
    ensures blocks <= others
  {
    forall b | b in blocks ensures b in others {
      CoveredBlock(blocks, b);
      var c := WholeBlock(others, b);
      CoveredBlock(others, c);
      var d := WholeBlock(blocks, c);
      InsideTrans(b, c, d);
      assert d == b;
      InsideBoth(b, c);
    }
  }

  /** The free frames determine the free blocks, whatever run of frees and allocations led there. */
  lemma CanonicalUnique(blocks: set<Block>, others: set<Block>)
    requires Canonical(blocks) && Canonical(others)
    requires forall f :: Covered(blocks, f) <==> Covered(others, f)
    ensures blocks == others
  {
    SubsetOfSameFrames(blocks, others);
    SubsetOfSameFrames(others, blocks);
  }

  /** Freeing what was just allocated restores the free blocks exactly. */
  lemma FreeUndoesAlloc(blocks: set<Block>, b: Block, order: nat)
    requires Canonical(blocks) && b in blocks && order <= b.order
    ensures Merge(Split(blocks - {b}, b, order), Lowest(b, order)) == blocks
  {
    hide Shr, Merge, Split, Lowest;
    var rest := blocks - {b};
    SplitCanonical(rest, b, order);
    MergeCanonical(Split(rest, b, order), Lowest(b, order));
    forall f ensures Covered(blocks, f) <==> Covered(rest, f) || In(f, b) {
      if Covered(blocks, f) {
        var c :| c in blocks && In(f, c);
        assert c != b ==> c in rest;
      }
    }
    CanonicalUnique(Merge(Split(rest, b, order), Lowest(b, order)), blocks);
  }
}
