/** The bits of page-table entries, and what they permit along a walk. */
module PageFlags {
  import opened Bits
  import opened PageTables
  import opened Paging

  const WRITE := 1
  const NO_EXECUTE := 63

  // ----- entries bit by bit -----

  lemma Sizes()
    ensures Pow2(12) == 0x1000 && Pow2(40) == 0x100_0000_0000 && Pow2(7) == 128 && Pow2(9) == 512
  {
    assert Pow2(4) == 16;
    assert Pow2(6) == 64;
    assert Pow2(8) == 256;
    assert Pow2(10) == 1024;
    assert Pow2(20) == 0x10_0000 by {
      Pow2Add(10, 10);
    }
    Pow2Add(20, 20);
  }

  lemma {:induction false} NoBits(k: nat)
    ensures !Bit(0, k)
  {
    if k > 0 {
      NoBits(k - 1);
      ShrHalf(0, k - 1);
    }
  }

  lemma LowBit(v: nat)
    ensures Bit(v, 0) <==> v % 2 == 1
  {
  }

  /** PT_P is bit 0 and PT_PS bit 7. */
  lemma PresentAndLarge(e: nat)
    ensures Present(e) <==> Bit(e, 0)
    ensures Large(e) <==> Bit(e, 7)
  {
    hide Bit, Pow2;
    LowBit(e);
    Sizes();
    var q, low := e / 128, e % 128;
    BitGlued(q, low, 7, 7);
    LowBit(q);
  }

  /** An entry's address is its bits 12 to 51 and its flags are the others. */
  lemma AddressBits(e: nat, k: nat)
    ensures Bit(AddrOf(e), k) <==> 12 <= k < 52 && Bit(e, k)
    ensures FlagsOf(e) >= 0 && (Bit(FlagsOf(e), k) <==> !(12 <= k < 52) && Bit(e, k))
  {
    hide Bit, Pow2;
    Sizes();
    var q, low := e / 4096, e % 4096;
    var h, p := q / 0x100_0000_0000, q % 0x100_0000_0000;
    FieldBits(h, p, low, k);
  }

  lemma FieldBits(h: nat, p: nat, low: nat, k: nat)
    requires p < 0x100_0000_0000 && low < 0x1000
    ensures Bit(p * 0x1000, k) <==> 12 <= k < 52 && Bit((h * 0x100_0000_0000 + p) * 0x1000 + low, k)
    ensures Bit(h * 0x100_0000_0000 * 0x1000 + low, k) <==>
            !(12 <= k < 52) && Bit((h * 0x100_0000_0000 + p) * 0x1000 + low, k)
  {
    hide Bit, Pow2;
    Sizes();
    NoBits(k);
    BitGlued(h * 0x100_0000_0000 + p, low, 12, k);
    BitGlued(p, 0, 12, k);
    BitGlued(h * 0x100_0000_0000, low, 12, k);
    if k >= 12 {
      BitGlued(h, p, 40, k - 12);
      BitGlued(h, 0, 40, k - 12);
      BitGlued(0, p, 40, k - 12);
      NoBits(k - 12);
      if k >= 52 {
        NoBits(k - 52);
      }
    }
  }

  /** The index into a table is nine bits of the address: 12 to 20 at the lowest level, 39 to 47 at the highest. */
  lemma IndexBits(a: nat, level: nat, k: nat)
    requires 1 <= level <= 4
    ensures Bit(Index(a, level), k) <==> k < 9 && Bit(a, 12 + 9 * (level - 1) + k)
  {
    hide Bit, Pow2, Up;
    Sizes();
    var v := Up(a, level);
    UpBits(a, level, k);
    BitGlued(v / 512, v % 512, 9, k);
    BitGlued(0, v % 512, 9, k);
    if k >= 9 {
      NoBits(k - 9);
    }
  }

  lemma {:induction false} UpBits(a: nat, level: nat, k: nat)
    requires 1 <= level <= 4
    ensures Bit(Up(a, level), k) <==> Bit(a, 12 + 9 * (level - 1) + k)
  {
    hide Bit, Pow2;
    Sizes();
    if level == 1 {
      BitGlued(a / 4096, a % 4096, 12, 12 + k);
    } else {
      var v := Up(a, level - 1);
      BitGlued(v / 512, v % 512, 9, 9 + k);
      UpBits(a, level - 1, 9 + k);
    }
  }

  /** Bit 7 is set on a large leaf; otherwise the flags are those asked for. */
  lemma LeafFlagBits(flags: nat, level: nat, k: nat)
    ensures Bit(LeafFlags(flags, level), k) <==> (k == 7 && level != 1) || Bit(flags, k)
  {
    hide Bit, Pow2, Large;
    Sizes();
    PresentAndLarge(flags);
    if !Large(flags) {
      BitSet(flags, 7, k);
    }
  }

  /** Bit `k` of the flags an address translates with. */
  ghost predicate FlagAt(phys: nat, tables: Tables, a: nat, k: nat)
    requires Shaped(tables)
  {
    Translate(phys, tables, a).Some? && Bit(Translate(phys, tables, a).value.flags, k)
  }

  /** Every address of the part mapped has, bit by bit, the flags that were asked for, but for bit 7 on a large leaf. */
  lemma FlagsAsAsked(phys: nat, before: Tables, after: Tables, r: Range, done: nat, a: nat, k: nat)
    requires Mapped(phys, before, after, r, done) && Offset(a, r.va) < done
    ensures Translate(phys, after, a).Some? && Translate(phys, after, a).value.pa == r.pa + Offset(a, r.va)
    ensures k != 7 ==> (FlagAt(phys, after, a, k) <==> Bit(r.flags, k))
    ensures FlagAt(phys, after, a, 7) <==> r.Level(Offset(a, r.va)) > 1 || Bit(r.flags, 7)
  {
    hide Bit, Translate, Offset, LevelAt, LeafFlags;
    var o := Offset(a, r.va);
    assert Effect(phys, before, after, r, done, a);
    LeafFlagBits(r.flags, r.Level(o), k);
    LeafFlagBits(r.flags, r.Level(o), 7);
  }

  /** Without large leaves every flag is as asked. */
  lemma {:induction false} SmallLeaves(va: nat, pa: nat, size: nat, has1G: bool, o: nat)
    requires o < size
    ensures LevelAt(va, pa, size, false, has1G, o) == 1
    decreases size
  {
    if o >= Span(1) {
      SmallLeaves(va + Span(1), pa + Span(1), size - Span(1), has1G, o - Span(1));
    }
  }

  // ----- what a walk permits -----

  /** Bit `k` is set in every entry the walk of an address passes, as the processor requires of writes. */
  ghost predicate AllSet(phys: nat, tables: Tables, t: int, level: nat, a: nat, k: nat)
    requires Shaped(tables) && 1 <= level <= 4
    decreases level
  {
    && 0 <= t < |tables|
    && var e := tables[t][Index(a, level)];
       Present(e) && Bit(e, k) && (IsLeaf(level, e) || AllSet(phys, tables, Child(phys, e), level - 1, a, k))
  }

  /** Bit `k` is set in some entry the walk passes, which is how the processor forbids execution. */
  ghost predicate AnySet(phys: nat, tables: Tables, t: int, level: nat, a: nat, k: nat)
    requires Shaped(tables) && 1 <= level <= 4
    decreases level
  {
    && 0 <= t < |tables|
    && var e := tables[t][Index(a, level)];
       && Present(e)
       && (Bit(e, k) || (!IsLeaf(level, e) && AnySet(phys, tables, Child(phys, e), level - 1, a, k)))
  }

  lemma ThreeBits()
    ensures Bit(3, 0) && Bit(3, 1) && Pow2(2) == 4
  {
    assert Shr(3, 1) == 1;
  }

  /** A pointer to a table is present and writable and has no other flag. */
  lemma PointerBits(e: nat, k: nat)
    requires FlagsOf(e) == 3 && !(12 <= k < 52)
    ensures Bit(e, k) <==> k < 2
  {
    hide Bit, Pow2, AddrOf;
    AddressBits(e, k);
    ThreeBits();
    if k >= 2 {
      BitGlued(0, 3, 2, k);
      NoBits(k - 2);
    }
  }

  /** The leaf alone decides whether an address can be written and whether it can be executed. */
  lemma {:induction false} LeafDecides(phys: nat, tables: Tables, owner: seq<Slot>, t: nat, level: nat, a: nat)
    requires WellFormed(phys, tables, owner) && t < |owner| && 1 <= level <= 4 && owner[t].level == level
    requires Walk(phys, tables, t, level, a).Some?
    ensures var flags := Walk(phys, tables, t, level, a).value.flags;
            && (AllSet(phys, tables, t, level, a, WRITE) <==> Bit(flags, WRITE))
            && (AnySet(phys, tables, t, level, a, NO_EXECUTE) <==> Bit(flags, NO_EXECUTE))
    decreases level
  {
    hide Bit, AddrOf, FlagsOf, HasParent, Large, Index;
    var e := tables[t][Index(a, level)];
    assert EntryOk(phys, owner, owner[t], Index(a, level), e);
    AddressBits(e, WRITE);
    AddressBits(e, NO_EXECUTE);
    if !IsLeaf(level, e) {
      PointerBits(e, WRITE);
      PointerBits(e, NO_EXECUTE);
      LeafDecides(phys, tables, owner, Child(phys, e), level - 1, a);
    }
  }

  /** So a range asked for as writable, or as not executable, is exactly that. */
  lemma RangePermits(phys: nat, before: Tables, after: Tables, owner: seq<Slot>, r: Range, done: nat, a: nat)
    requires Mapped(phys, before, after, r, done) && Offset(a, r.va) < done && WellFormed(phys, after, owner)
    ensures AllSet(phys, after, 0, 4, a, WRITE) <==> Bit(r.flags, WRITE)
    ensures AnySet(phys, after, 0, 4, a, NO_EXECUTE) <==> Bit(r.flags, NO_EXECUTE)
  {
    hide Bit, Offset, LevelAt, AllSet, AnySet, Mapped, Walk;
    FlagsAsAsked(phys, before, after, r, done, a, WRITE);
    FlagsAsAsked(phys, before, after, r, done, a, NO_EXECUTE);
    LeafDecides(phys, after, owner, 0, 4, a);
  }
}
