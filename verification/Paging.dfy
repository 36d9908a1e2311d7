/** The loader's page-table builder: a bump pool of tables and the range mapper over it. */
module Paging {
  import opened PageTables
  import opened Products

  datatype PtStatus = Ok | ErrUnaligned | ErrConflict | ErrNoMemory | ErrNotMapped

  // ----- the leaves a range is cut into -----

  /** The largest leaf alignment, size and CPU allow. */
  function ChooseLevel(va: nat, pa: nat, size: nat, allowLarge: bool, has1G: bool): (level: nat)
    ensures 1 <= level <= 3 && (!allowLarge ==> level == 1)
  {
    if allowLarge && has1G && va % Span(3) == 0 && pa % Span(3) == 0 && size >= Span(3) then 3
    else if allowLarge && va % Span(2) == 0 && pa % Span(2) == 0 && size >= Span(2) then 2
    else 1
  }

  /** A leaf of this level may stand at the start of the range. */
  predicate Suits(va: nat, pa: nat, size: nat, allowLarge: bool, has1G: bool, level: nat) {
    && 1 <= level <= 3 && (level > 1 ==> allowLarge) && (level == 3 ==> has1G)
    && va % Span(level) == 0 && pa % Span(level) == 0 && Span(level) <= size
  }

  /** The chosen level suits, and no larger one does. */
  lemma ChosenFits(va: nat, pa: nat, size: nat, allowLarge: bool, has1G: bool)
    requires va % 4096 == 0 && pa % 4096 == 0 && size % 4096 == 0 && size > 0
    ensures var level := ChooseLevel(va, pa, size, allowLarge, has1G);
            && Suits(va, pa, size, allowLarge, has1G, level) && Span(level) % 4096 == 0
            && forall l | level < l :: !Suits(va, pa, size, allowLarge, has1G, l)
  {
  }

  /** The level of the leaf that covers offset `o` of a range. */
  ghost function LevelAt(va: nat, pa: nat, size: nat, allowLarge: bool, has1G: bool, o: nat): (level: nat)
    requires o < size
    ensures 1 <= level <= 3
    decreases size
  {
    var level := ChooseLevel(va, pa, size, allowLarge, has1G);
    var s := Span(level);
    if o < s then level else LevelAt(va + s, pa + s, size - s, allowLarge, has1G, o - s)
  }

  /** The caller's flags, with PS on a large leaf. */
  function LeafFlags(flags: nat, level: nat): nat {
    if level == 1 then flags else WithPs(flags)
  }

  /** A mapping request. */
  datatype Range = Range(va: nat, pa: nat, size: nat, flags: nat, allowLarge: bool, has1G: bool) {
    ghost function Level(o: nat): (level: nat)
      requires o < size
      ensures 1 <= level <= 3
    {
      LevelAt(va, pa, size, allowLarge, has1G, o)
    }
  }

  /** Address `a` after the first `done` bytes of a range were mapped: mapped as asked if it lies in them,
      where it was unmapped before; otherwise as before. */
  ghost predicate Effect(phys: nat, before: Tables, after: Tables, r: Range, done: nat, a: nat)
    requires Shaped(before) && Shaped(after) && done <= r.size
  {
    var o := Offset(a, r.va);
    if o < done then
      && Translate(phys, before, a) == None
      && Translate(phys, after, a) == Some(Leaf(r.pa + o, LeafFlags(r.flags, r.Level(o))))
    else Translate(phys, after, a) == Translate(phys, before, a)
  }

  ghost predicate Mapped(phys: nat, before: Tables, after: Tables, r: Range, done: nat) {
    && Shaped(before) && Shaped(after) && done <= r.size
    && forall a: nat :: Effect(phys, before, after, r, done, a)
  }

  /** No translation differs. */
  ghost predicate Same(phys: nat, before: Tables, after: Tables) {
    Shaped(before) && Shaped(after) && forall a: nat :: Translate(phys, after, a) == Translate(phys, before, a)
  }

  // ----- adding one leaf to what is mapped -----

  /** One leaf of `level` at `va`, and nothing else, was added between two states. */
  ghost predicate LeafAdded(phys: nat, mid: Tables, after: Tables, va: nat, pa: nat, level: nat, flags: nat, a: nat)
    requires Shaped(mid) && Shaped(after) && 1 <= level <= 3
  {
    var o := Offset(a, va);
    if o < Span(level) then
      Translate(phys, mid, a) == None && Translate(phys, after, a) == Some(Leaf(pa + o, LeafFlags(flags, level)))
    else Translate(phys, after, a) == Translate(phys, mid, a)
  }

  ghost predicate LeafOnly(phys: nat, mid: Tables, after: Tables, va: nat, pa: nat, level: nat, flags: nat) {
    && Shaped(mid) && Shaped(after) && 1 <= level <= 3
    && forall a: nat :: LeafAdded(phys, mid, after, va, pa, level, flags, a)
  }

  lemma OffsetShift(a: nat, va: nat, done: nat)
    requires done <= VA_SPAN
    ensures Offset(a, va + done) == if Offset(a, va) >= done then Offset(a, va) - done
            else Offset(a, va) - done + VA_SPAN
  {
    var o := Offset(a, va);
    var q := (a - va) / VA_SPAN;
    assert a - va == q * VA_SPAN + o;
    if o >= done {
      QuotientUnique(a - (va + done), VA_SPAN, q, o - done);
    } else {
      QuotientUnique(a - (va + done), VA_SPAN, q - 1, o - done + VA_SPAN);
    }
  }

  /** A leaf that went in did not wrap around onto the range itself. */
  lemma NoWrap(phys: nat, before: Tables, mid: Tables, after: Tables, r: Range, done: nat, level: nat)
    requires Mapped(phys, before, mid, r, done)
    requires LeafOnly(phys, mid, after, r.va + done, r.pa + done, level, r.flags)
    ensures done + Span(level) <= VA_SPAN
  {
    hide Translate, LevelAt;
    if done > VA_SPAN - Span(level) {
      var o := if done >= VA_SPAN then 0 else VA_SPAN - done;
      var a := r.va + done + o;
      assert Offset(a, r.va + done) == o;
      assert LeafAdded(phys, mid, after, r.va + done, r.pa + done, level, r.flags, a);
      assert Effect(phys, before, mid, r, done, a);
      if done < VA_SPAN {
        OffsetShift(a, r.va, done);
      }
    }
  }

  /** `done` is a boundary between leaves: what is left is cut up as a range of its own. */
  ghost predicate Boundary(r: Range, done: nat) {
    done <= r.size && forall o: nat | done <= o < r.size :: r.Level(o) == Rest(r, done).Level(o - done)
  }

  ghost function Rest(r: Range, done: nat): Range
    requires done <= r.size
  {
    r.(va := r.va + done, pa := r.pa + done, size := r.size - done)
  }

  ghost function FirstLevel(r: Range): (level: nat)
    ensures 1 <= level <= 3
  {
    ChooseLevel(r.va, r.pa, r.size, r.allowLarge, r.has1G)
  }

  lemma LevelStep(r: Range, o: nat)
    requires o < r.size
    ensures var s := Span(FirstLevel(r));
            if o < s then r.Level(o) == FirstLevel(r) else s <= r.size && r.Level(o) == Rest(r, s).Level(o - s)
  {
  }

  lemma BoundaryStep(r: Range, done: nat)
    requires Boundary(r, done) && done + Span(FirstLevel(Rest(r, done))) <= r.size
    ensures Boundary(r, done + Span(FirstLevel(Rest(r, done))))
    ensures forall o: nat | done <= o < done + Span(FirstLevel(Rest(r, done))) ::
            r.Level(o) == FirstLevel(Rest(r, done))
  {
    hide Span, FirstLevel, LevelAt;
    var rest := Rest(r, done);
    var s := Span(FirstLevel(rest));
    assert Rest(rest, s) == Rest(r, done + s);
    forall o: nat | done <= o < r.size
      ensures o < done + s ==> r.Level(o) == FirstLevel(rest)
      ensures o >= done + s ==> r.Level(o) == Rest(r, done + s).Level(o - (done + s))
    {
      LevelStep(rest, o - done);
    }
  }

  /** A leaf behind the part done extends it. */
  lemma MappedStep(phys: nat, before: Tables, mid: Tables, after: Tables, r: Range, done: nat, level: nat, next: nat)
    requires Mapped(phys, before, mid, r, done) && 1 <= level <= 3 && done < next == done + Span(level) <= r.size
    requires LeafOnly(phys, mid, after, r.va + done, r.pa + done, level, r.flags)
    requires forall o: nat | done <= o < next :: r.Level(o) == level
    ensures Mapped(phys, before, after, r, next)
  {
    hide Translate, LevelAt, Offset;
    NoWrap(phys, before, mid, after, r, done, level);
    forall a: nat ensures Effect(phys, before, after, r, next, a) {
      EffectStep(phys, before, mid, after, r, done, level, next, a);
    }
  }

  lemma EffectStep(phys: nat, before: Tables, mid: Tables, after: Tables, r: Range, done: nat, level: nat, next: nat,
      a: nat)
    requires Shaped(before) && Shaped(mid) && Shaped(after) && 1 <= level <= 3
    requires done < next == done + Span(level) <= r.size && next <= VA_SPAN
    requires Effect(phys, before, mid, r, done, a)
    requires LeafAdded(phys, mid, after, r.va + done, r.pa + done, level, r.flags, a)
    requires done <= Offset(a, r.va) < next ==> r.Level(Offset(a, r.va)) == level
    ensures Effect(phys, before, after, r, next, a)
  {
    hide Translate, LevelAt, Offset;
    OffsetShift(a, r.va, done);
  }

  lemma NothingMapped(phys: nat, tables: Tables, r: Range)
    requires Shaped(tables)
    ensures Mapped(phys, tables, tables, r, 0) && Boundary(r, 0)
  {
  }

  // ----- the builder -----

  class PtBuilder {
    const phys: nat
    const poolPages: nat
    const has1G: bool
    var used: nat
    /** The pool, page by page, as 512 entries each. */
    var tables: Tables
    ghost var owner: seq<Slot>

    ghost predicate Valid()
      reads this
      ensures Valid() ==> Shaped(tables)
    {
      && WellFormed(phys, tables, owner)
      && used == |owner| && |tables| == poolPages
      && phys % 4096 == 0 && phys + 4096 * poolPages < ADDR_LIMIT
    }

    ghost function At(a: nat): Option<Leaf>
      requires Valid()
      reads this
    {
      Translate(phys, tables, a)
    }

    /** A zeroed pool whose first page is the PML4. */
    constructor (phys: nat, poolPages: nat, has1G: bool)
      requires poolPages > 0 && phys % 4096 == 0 && phys + 4096 * poolPages < ADDR_LIMIT
      ensures Valid() && this.phys == phys && this.poolPages == poolPages && this.has1G == has1G && used == 1
      ensures forall a: nat :: At(a) == None
    {
      this.phys, this.poolPages, this.has1G := phys, poolPages, has1G;
      used := 1;
      tables := seq(poolPages, _ => seq(512, _ => 0));
      owner := [Slot(4, 0)];
    }

    /** The table below entry `Index(va, level)` of table `t`, hung in if it was absent; no translation changes. */
    method GetOrAllocTable(t: nat, va: nat, level: nat) returns (st: PtStatus, next: nat)
      requires Valid() && 2 <= level <= 4 && PathTo(phys, tables, 0, 4, va, t, level)
      modifies this`used, this`tables, this`owner
      ensures Valid() && (st == Ok || st == ErrConflict || st == ErrNoMemory)
      ensures Same(phys, old(tables), tables)
      ensures st == Ok ==> PathTo(phys, tables, 0, 4, va, next, level - 1)
      ensures st == ErrConflict ==> At(va).Some?
      ensures st == ErrNoMemory ==> used == poolPages && At(va) == None
      ensures used == old(used) || (used == old(used) + 1 && st == Ok)
      ensures forall l | 1 <= l < level :: Taken(phys, tables, va, l) == Taken(phys, old(tables), va, l)
      ensures st == ErrNoMemory ==> forall l | 1 <= l < level :: !Taken(phys, tables, va, l)
    {
      hide WellFormed, PathTo, Translate, Pointer, Taken;
      PathFacts(phys, tables, owner, va, t, level);
      var i := Index(va, level);
      var e := tables[t][i];
      if Present(e) {
        if Large(e) {
          return ErrConflict, 0;
        }
        DescendPresent(phys, tables, owner, va, t, level);
        return Ok, Child(phys, e);
      }
      forall l | 1 <= l < level ensures !Taken(phys, tables, va, l) {
        NotTaken(phys, tables, va, t, level, l);
      }
      if used >= poolPages {
        return ErrNoMemory, 0;
      }
      var page := used;
      ghost var before, was := tables, owner;
      AllocWellFormed(phys, tables, owner, t, i);
      AllocPath(phys, tables, owner, va, t, level);
      tables := Put(tables, t, i, Pointer(phys, page));
      owner := owner + [Slot(owner[t].level - 1, owner[t].prefix * 512 + i)];
      used := used + 1;
      forall a: nat ensures Translate(phys, tables, a) == Translate(phys, before, a) {
        AllocInvisible(phys, before, was, va, t, level, a);
      }
      StillNotTaken(phys, before, was, tables, va, t, i, page, level);
      return Ok, page;
    }

    /** Writes a leaf, refusing to overwrite anything present. */
    method WriteLeaf(t: nat, va: nat, pa: nat, level: nat, leafFlags: nat) returns (st: PtStatus)
      requires Valid() && 1 <= level <= 3 && PathTo(phys, tables, 0, 4, va, t, level)
      requires va % Span(level) == 0 && pa % 4096 == 0 && pa < ADDR_LIMIT && FlagBits(leafFlags) && Present(leafFlags)
      modifies this`tables
      ensures Valid() && (st == Ok || st == ErrConflict)
      ensures st == Ok ==> LeafOnly(phys, old(tables), tables, va, pa, level, leafFlags)
      ensures st == ErrConflict ==> tables == old(tables)
      ensures st == ErrConflict <==> Taken(phys, old(tables), va, level)
    {
      hide WellFormed, PathTo, Translate, Offset, LeafAdded, Taken;
      PathFacts(phys, tables, owner, va, t, level);
      if Present(tables[t][Index(va, level)]) {
        PresentTaken(phys, tables, owner, va, t, level);
        return ErrConflict;
      }
      NotTaken(phys, tables, va, t, level, level);
      var e := pa + LeafFlags(leafFlags, level);
      LeafEntry(pa, leafFlags, level);
      ghost var before := tables;
      LeafWellFormed(phys, tables, owner, t, Index(va, level), e);
      tables := Put(tables, t, Index(va, level), e);
      WellFormedShaped(phys, tables, owner);
      forall a: nat ensures LeafAdded(phys, before, tables, va, pa, level, leafFlags, a) {
        LeafIsAdded(phys, before, owner, va, pa, t, level, leafFlags, a);
      }
      return Ok;
    }

    /** One turn of the mapping loop: the tables the chosen leaf needs, then the leaf. */
    method MapLeaf(va: nat, pa: nat, size: nat, leafFlags: nat, allowLarge: bool) returns (st: PtStatus, step: nat)
      requires Valid() && va % 4096 == 0 && pa % 4096 == 0 && size % 4096 == 0 && size > 0
      requires pa + size <= ADDR_LIMIT && FlagBits(leafFlags) && Present(leafFlags)
      modifies this`used, this`tables, this`owner
      ensures Valid() && (st == Ok || st == ErrConflict || st == ErrNoMemory)
      ensures st == Ok ==>
                var level := ChooseLevel(va, pa, size, allowLarge, has1G);
                step == Span(level) <= size && step > 0 && step % 4096 == 0
                  && LeafOnly(phys, old(tables), tables, va, pa, level, leafFlags)
      ensures st != Ok ==> Same(phys, old(tables), tables)
      ensures st == ErrConflict <==> Taken(phys, old(tables), va, ChooseLevel(va, pa, size, allowLarge, has1G))
      ensures st == ErrConflict ==> Taken(phys, tables, va, ChooseLevel(va, pa, size, allowLarge, has1G))
      ensures st == ErrNoMemory ==> used == poolPages && At(va) == None
    {
      hide WellFormed, PathTo, Translate, LeafOnly, Present, FlagBits, HasTable;
      ChosenFits(va, pa, size, allowLarge, has1G);
      ghost var before := tables;
      RootPath(phys, tables, owner, va);
      var pdpt, pd, pt;
      st, pdpt := GetOrAllocTable(0, va, 4);
      step := 0;
      if st != Ok {
        return;
      }
      var level := ChooseLevel(va, pa, size, allowLarge, has1G);
      ghost var mid := tables;
      if level == 3 {
        st := WriteLeaf(pdpt, va, pa, 3, leafFlags);
      } else {
        st, pd := GetOrAllocTable(pdpt, va, 3);
        if st != Ok {
          return;
        }
        mid := tables;
        if level == 2 {
          st := WriteLeaf(pd, va, pa, 2, leafFlags);
        } else {
          st, pt := GetOrAllocTable(pd, va, 2);
          if st != Ok {
            return;
          }
          mid := tables;
          st := WriteLeaf(pt, va, pa, 1, leafFlags);
        }
      }
      if st == Ok {
        SameBefore(phys, before, mid, tables, va, pa, level, leafFlags);
        step := Span(level);
      }
    }

    /** Maps the range leaf by leaf. On success every address of it translates to its place in the physical
        range with the requested flags; whatever the outcome, some prefix of the range was mapped, it was
        unmapped before, and no other translation changed. */
    method MapRange(va: nat, pa: nat, size: nat, leafFlags: nat, allowLarge: bool)
        returns (st: PtStatus, ghost done: nat)
      requires Valid() && pa + size <= ADDR_LIMIT && FlagBits(leafFlags) && Present(leafFlags)
      modifies this`used, this`tables, this`owner
      ensures Valid()
      ensures Mapped(phys, old(tables), tables, Range(va, pa, size, leafFlags, allowLarge, has1G), done)
      ensures st == Ok ==> done == size
      ensures st == ErrUnaligned <==> va % 4096 != 0 || pa % 4096 != 0 || size % 4096 != 0
      ensures st == ErrUnaligned ==> tables == old(tables)
      ensures st == ErrConflict ==>
                done < size && Taken(phys, tables, va + done,
                  ChooseLevel(va + done, pa + done, size - done, allowLarge, has1G))
      ensures st == ErrNoMemory ==> used == poolPages && At(va + done) == None
    {
      hide WellFormed, Effect, Boundary, LeafOnly, FlagBits, Present, Translate, ChooseLevel, Span, Taken;
      ghost var r := Range(va, pa, size, leafFlags, allowLarge, has1G);
      ghost var before := tables;
      done := 0;
      NothingMapped(phys, tables, r);
      if va % 4096 != 0 || pa % 4096 != 0 || size % 4096 != 0 {
        return ErrUnaligned, 0;
      }
      var v, p, left := va, pa, size;
      while left > 0
        invariant Valid() && v == va + done && p == pa + done && left == size - done
        invariant v % 4096 == 0 && p % 4096 == 0 && left % 4096 == 0
        invariant Mapped(phys, before, tables, r, done) && Boundary(r, done)
        decreases left
      {
        ghost var mid := tables;
        var step;
        st, step := MapLeaf(v, p, left, leafFlags, allowLarge);
        if st != Ok {
          SameAfter(phys, before, mid, tables, r, done);
          return st, done;
        }
        BoundaryStep(r, done);
        MappedStep(phys, before, mid, tables, r, done, FirstLevel(Rest(r, done)), done + step);
        AlignedStep(v, step);
        AlignedStep(p, step);
        AlignedStep(left, step);
        v, p, left, done := v + step, p + step, left - step, done + step;
      }
      return Ok, done;
    }

    /** The walk as it is run: the leaf an address translates to, if any. */
    method Lookup(va: nat) returns (st: PtStatus, pa: nat, leafFlags: int)
      requires Valid()
      ensures match At(va)
              case None => st == ErrNotMapped
              case Some(leaf) => st == Ok && pa == leaf.pa && leafFlags == leaf.flags
    {
      hide HasParent, AddrOf, Part;
      pa, leafFlags := 0, 0;
      RootPart(va);
      var e4 := tables[0][Index(va, 4)];
      assert EntryOk(phys, owner, owner[0], Index(va, 4), e4);
      if !Present(e4) {
        return ErrNotMapped, 0, 0;
      }
      var pdpt := Child(phys, e4);
      var e3 := tables[pdpt][Index(va, 3)];
      assert EntryOk(phys, owner, owner[pdpt], Index(va, 3), e3);
      if !Present(e3) {
        return ErrNotMapped, 0, 0;
      }
      if Large(e3) {
        return Ok, AddrOf(e3) + va % Span(3), FlagsOf(e3);
      }
      var pd := Child(phys, e3);
      var e2 := tables[pd][Index(va, 2)];
      assert EntryOk(phys, owner, owner[pd], Index(va, 2), e2);
      if !Present(e2) {
        return ErrNotMapped, 0, 0;
      }
      if Large(e2) {
        return Ok, AddrOf(e2) + va % Span(2), FlagsOf(e2);
      }
      var pt := Child(phys, e2);
      var e1 := tables[pt][Index(va, 1)];
      if !Present(e1) {
        return ErrNotMapped, 0, 0;
      }
      return Ok, AddrOf(e1) + va % Span(1), FlagsOf(e1);
    }
  }

  lemma AlignedStep(x: int, step: int)
    requires x % 4096 == 0 && step % 4096 == 0
    ensures (x + step) % 4096 == 0 && (x - step) % 4096 == 0
  {
  }

  lemma SameAfter(phys: nat, before: Tables, mid: Tables, after: Tables, r: Range, done: nat)
    requires Mapped(phys, before, mid, r, done) && Same(phys, mid, after)
    ensures Mapped(phys, before, after, r, done)
  {
    hide Translate, Offset, LevelAt;
    forall a: nat ensures Effect(phys, before, after, r, done, a) {
      assert Effect(phys, before, mid, r, done, a);
    }
  }

  lemma WellFormedShaped(phys: nat, tables: Tables, owner: seq<Slot>)
    requires WellFormed(phys, tables, owner)
    ensures Shaped(tables)
  {
  }

  lemma SameBefore(phys: nat, before: Tables, mid: Tables, after: Tables, va: nat, pa: nat, level: nat, flags: nat)
    requires LeafOnly(phys, mid, after, va, pa, level, flags) && Same(phys, before, mid)
    ensures LeafOnly(phys, before, after, va, pa, level, flags)
  {
    hide Translate, Offset;
    forall a: nat ensures LeafAdded(phys, before, after, va, pa, level, flags, a) {
      assert LeafAdded(phys, mid, after, va, pa, level, flags, a);
    }
  }

  lemma RootPath(phys: nat, tables: Tables, owner: seq<Slot>, va: nat)
    requires WellFormed(phys, tables, owner)
    ensures Shaped(tables) && PathTo(phys, tables, 0, 4, va, 0, 4)
  {
  }

  lemma LeafEntry(pa: nat, f: nat, level: nat)
    requires 1 <= level <= 3 && pa % 4096 == 0 && pa < ADDR_LIMIT && FlagBits(f) && Present(f)
    ensures var e := pa + LeafFlags(f, level);
            Present(e) && IsLeaf(level, e) && AddrOf(e) == pa && FlagsOf(e) == LeafFlags(f, level)
  {
    WithPsParts(f);
    EntryParts(pa, LeafFlags(f, level));
  }

  lemma LeafIsAdded(phys: nat, tables: Tables, owner: seq<Slot>, va: nat, pa: nat, t: nat, level: nat, f: nat, a: nat)
    requires WellFormed(phys, tables, owner) && 1 <= level <= 3 && PathTo(phys, tables, 0, 4, va, t, level)
    requires t < |tables| && !Present(tables[t][Index(va, level)]) && va % Span(level) == 0
    requires pa % 4096 == 0 && pa < ADDR_LIMIT && FlagBits(f) && Present(f)
    ensures Shaped(Put(tables, t, Index(va, level), pa + LeafFlags(f, level)))
    ensures LeafAdded(phys, tables, Put(tables, t, Index(va, level), pa + LeafFlags(f, level)), va, pa, level, f, a)
  {
    hide Translate, PathTo, Offset, AddrOf, FlagsOf, Part, LeafFlags;
    var e := pa + LeafFlags(f, level);
    LeafEntry(pa, f, level);
    LeafWritten(phys, tables, owner, va, t, level, e, a);
    LeafCovers(a, va, level);
  }

  /** What the walk to a table tells about the address at its entry. */
  lemma PathFacts(phys: nat, tables: Tables, owner: seq<Slot>, va: nat, t: nat, level: nat)
    requires WellFormed(phys, tables, owner) && 1 <= level <= 4 && PathTo(phys, tables, 0, 4, va, t, level)
    ensures Shaped(tables) && t < |owner| <= |tables| && owner[t].level == level
    ensures var e := tables[t][Index(va, level)];
            && (!Present(e) ==> Translate(phys, tables, va) == None)
            && (Present(e) && IsLeaf(level, e) ==> Translate(phys, tables, va).Some?)
            && (Present(e) && Large(e) ==> IsLeaf(level, e))
  {
    hide Part, AddrOf, FlagsOf, Present, Large;
    RootPart(va);
    PathOwner(phys, tables, owner, 0, 4, va, t, level);
    WalkAlongPath(phys, tables, 0, 4, va, t, level);
    var e := tables[t][Index(va, level)];
    assert EntryOk(phys, owner, owner[t], Index(va, level), e);
  }

  /** A present entry is a leaf, or a table hangs there. */
  lemma PresentTaken(phys: nat, tables: Tables, owner: seq<Slot>, va: nat, t: nat, level: nat)
    requires WellFormed(phys, tables, owner) && 1 <= level <= 3 && PathTo(phys, tables, 0, 4, va, t, level)
    requires t < |owner| <= |tables| && owner[t].level == level && Shaped(tables)
             && Present(tables[t][Index(va, level)])
    ensures Taken(phys, tables, va, level)
  {
    hide WellFormed, PathTo, Translate, Present, Large;
    PathFacts(phys, tables, owner, va, t, level);
    var e := tables[t][Index(va, level)];
    if !IsLeaf(level, e) {
      DescendPresent(phys, tables, owner, va, t, level);
      var c: nat := Child(phys, e);
      assert PathTo(phys, tables, 0, 4, va, c, level - 1);
    }
  }

  /** In a table just hung in nothing is taken. */
  lemma StillNotTaken(phys: nat, before: Tables, owner: seq<Slot>, after: Tables, va: nat, t: nat, i: nat, page: nat,
      level: nat)
    requires WellFormed(phys, before, owner) && Shaped(before) && Shaped(after) && 2 <= level <= 4
    requires t < |owner| == page < |before| && i < 512 && after == Put(before, t, i, Pointer(phys, page))
    requires PathTo(phys, after, 0, 4, va, page, level - 1) && Translate(phys, after, va) == None
    ensures forall l | 1 <= l < level :: !Taken(phys, after, va, l)
  {
    hide PathTo, Translate, Pointer, Index, Taken, EntryOk, HasParent;
    forall l | 1 <= l < level ensures !Taken(phys, after, va, l) {
      assert after[page][Index(va, level - 1)] == before[page][Index(va, level - 1)] == 0;
      NotTaken(phys, after, va, page, level - 1, l);
    }
  }

  lemma DescendPresent(phys: nat, tables: Tables, owner: seq<Slot>, va: nat, t: nat, level: nat)
    requires WellFormed(phys, tables, owner) && 2 <= level <= 4 && PathTo(phys, tables, 0, 4, va, t, level)
    requires t < |owner| && owner[t].level == level
    requires Present(tables[t][Index(va, level)]) && !Large(tables[t][Index(va, level)])
    ensures var c := Child(phys, tables[t][Index(va, level)]);
            c >= 0 && PathTo(phys, tables, 0, 4, va, c, level - 1)
  {
    hide PathTo, AddrOf, Child, Present, Large;
    var e := tables[t][Index(va, level)];
    assert EntryOk(phys, owner, owner[t], Index(va, level), e);
    PathExtends(phys, tables, 0, 4, va, t, level);
  }
}
