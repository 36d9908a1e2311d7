/** The 4-level page tables: what a walk yields, and how writing one entry changes it. */
module PageTables {
  import opened Products
  import opened Sequences

  datatype Option<+T> = None | Some(value: T)

  /** What an address translates to: the physical address and the leaf's flag bits. */
  datatype Leaf = Leaf(pa: nat, flags: nat)

  const VA_SPAN: nat := 0x1_0000_0000_0000

  /** Bytes covered by one entry of a table at `level` (1 = page table, 4 = PML4). */
  function Span(level: nat): (n: nat)
    requires 1 <= level <= 4
    ensures n > 0 && n % 4096 == 0
  {
    if level == 1 then 0x1000 else if level == 2 then 0x20_0000 else if level == 3 then 0x4000_0000 else 0x80_0000_0000
  }

  /** The address shifted down to where its `level` index starts. */
  function Up(a: nat, level: nat): nat
    requires 1 <= level <= 5
  {
    if level == 1 then a / 4096 else Up(a, level - 1) / 512
  }

  function Index(a: nat, level: nat): (i: nat)
    requires 1 <= level <= 4
    ensures i < 512
  {
    Up(a, level) % 512
  }

  /** The indices from the top down to `level`, as one number: which `level` entry an address falls in. */
  function Part(a: nat, level: nat): nat
    requires 1 <= level <= 5
    decreases 5 - level
  {
    if level == 5 then 0 else Part(a, level + 1) * 512 + Index(a, level)
  }

  /** How far `a` lies above `va`, in the 48-bit address space. */
  function Offset(a: nat, va: nat): (d: nat)
    ensures d < VA_SPAN
  {
    (a - va) % VA_SPAN
  }

  /** An address is the sum of its digits. */
  lemma Digits(a: nat)
    ensures a == Up(a, 5) * VA_SPAN + Index(a, 4) * 0x80_0000_0000 + Index(a, 3) * 0x4000_0000
                 + Index(a, 2) * 0x20_0000 + Index(a, 1) * 0x1000 + a % 4096
    ensures Part(a, 4) == Index(a, 4)
    ensures Part(a, 3) == Index(a, 4) * 512 + Index(a, 3)
    ensures Part(a, 2) == (Index(a, 4) * 512 + Index(a, 3)) * 512 + Index(a, 2)
    ensures Part(a, 1) == ((Index(a, 4) * 512 + Index(a, 3)) * 512 + Index(a, 2)) * 512 + Index(a, 1)
  {
    assert Up(a, 1) == Up(a, 2) * 512 + Index(a, 1);
    assert Up(a, 2) == Up(a, 3) * 512 + Index(a, 2);
    assert Up(a, 3) == Up(a, 4) * 512 + Index(a, 3);
    assert Up(a, 4) == Up(a, 5) * 512 + Index(a, 4);
  }

  /** The address within the 48-bit space, as entry number and remainder. */
  lemma PartAndRest(a: nat, level: nat)
    requires 1 <= level <= 4
    ensures a % VA_SPAN == Part(a, level) * Span(level) + a % Span(level)
  {
    hide Up, Index, Part;
    Digits(a);
    var i4, i3, i2, i1, o := Index(a, 4), Index(a, 3), Index(a, 2), Index(a, 1), a % 4096;
    var low := i4 * 0x80_0000_0000 + i3 * 0x4000_0000 + i2 * 0x20_0000 + i1 * 0x1000 + o;
    QuotientUnique(a, VA_SPAN, Up(a, 5), low);
    if level == 2 {
      QuotientUnique(a, 0x20_0000, Up(a, 5) * 0x800_0000 + Part(a, 2), i1 * 0x1000 + o);
    } else if level == 3 {
      QuotientUnique(a, 0x4000_0000, Up(a, 5) * 0x4_0000 + Part(a, 3), i2 * 0x20_0000 + i1 * 0x1000 + o);
    } else if level == 4 {
      QuotientUnique(a, 0x80_0000_0000, Up(a, 5) * 0x200 + Part(a, 4),
        i3 * 0x4000_0000 + i2 * 0x20_0000 + i1 * 0x1000 + o);
    }
  }

  /** The addresses of the leaf at an aligned `va` are those less than its span above it. */
  lemma LeafCovers(a: nat, va: nat, level: nat)
    requires 1 <= level <= 3 && va % Span(level) == 0
    ensures Part(a, level) == Part(va, level) <==> Offset(a, va) < Span(level)
    ensures Offset(a, va) < Span(level) ==> Offset(a, va) == a % Span(level)
  {
    PartAndRest(a, level);
    PartAndRest(va, level);
    hide Part, Up;
    var x, v, s := a % VA_SPAN, va % VA_SPAN, Span(level);
    var pa, pv := Part(a, level), Part(va, level);
    OffsetOf(a, va);
    if level == 1 {
    } else if level == 2 {
    } else {
    }
  }

  lemma OffsetOf(a: nat, va: nat)
    ensures var x, v := a % VA_SPAN, va % VA_SPAN; Offset(a, va) == if x >= v then x - v else x - v + VA_SPAN
  {
    var x, v := a % VA_SPAN, va % VA_SPAN;
    var q := a / VA_SPAN - va / VA_SPAN;
    if x >= v {
      QuotientUnique(a - va, VA_SPAN, q, x - v);
    } else {
      QuotientUnique(a - va, VA_SPAN, q - 1, x - v + VA_SPAN);
    }
  }

  // ----- entries -----

  const ADDR_LIMIT: nat := 0x10_0000_0000_0000

  predicate Present(e: nat) {
    e % 2 == 1
  }

  predicate Large(e: nat) {
    e / 128 % 2 == 1
  }

  /** The bits of PT_ADDR_MASK. */
  function AddrOf(e: nat): nat {
    e / 4096 % 0x100_0000_0000 * 4096
  }

  function FlagsOf(e: nat): int {
    e - AddrOf(e)
  }

  /** No address bits: what a caller may pass as leaf flags. */
  predicate FlagBits(f: nat) {
    AddrOf(f) == 0
  }

  /** PT_PS or-ed in. */
  function WithPs(f: nat): nat {
    if Large(f) then f else f + 128
  }

  /** An entry from its top bits, page frame and low bits. */
  lemma Compose(h: nat, p: nat, lo: nat)
    requires p < 0x100_0000_0000 && lo < 4096
    ensures var e := (h * 0x100_0000_0000 + p) * 4096 + lo;
            && AddrOf(e) == p * 4096 && FlagsOf(e) == h * 0x100_0000_0000 * 4096 + lo
            && Present(e) == (lo % 2 == 1) && Large(e) == (lo / 128 % 2 == 1)
  {
    var q := h * 0x100_0000_0000 + p;
    QuotientUnique(q * 4096 + lo, 4096, q, lo);
    QuotientUnique(q, 0x100_0000_0000, h, p);
    LowBits(q, lo);
  }

  /** The low twelve bits are not touched by what lies above them. */
  lemma LowBits(q: nat, lo: nat)
    requires lo < 4096
    ensures Present(q * 4096 + lo) == Present(lo) && Large(q * 4096 + lo) == Large(lo)
  {
    var e, l := q * 4096 + lo, lo / 128;
    QuotientUnique(e, 2, q * 2048 + lo / 2, lo % 2);
    QuotientUnique(e, 128, q * 32 + l, lo % 128);
    QuotientUnique(q * 32 + l, 2, q * 16 + l / 2, l % 2);
  }

  lemma FlagShape(f: nat)
    requires FlagBits(f)
    ensures f == (f / 4096 / 0x100_0000_0000 * 0x100_0000_0000 + 0) * 4096 + f % 4096
  {
    var q := f / 4096;
    assert q % 0x100_0000_0000 == 0;
  }

  /** Address and flags have no bit in common, so or-ing them is adding them and both can be read back. */
  lemma EntryParts(pa: nat, f: nat)
    requires pa % 4096 == 0 && pa < ADDR_LIMIT && FlagBits(f)
    ensures AddrOf(pa + f) == pa && FlagsOf(pa + f) == f
    ensures Present(pa + f) == Present(f) && Large(pa + f) == Large(f)
  {
    hide AddrOf, FlagsOf, Present, Large;
    FlagShape(f);
    var h, p, lo := f / 4096 / 0x100_0000_0000, pa / 4096, f % 4096;
    Compose(h, 0, lo);
    Compose(h, p, lo);
    assert pa + f == (h * 0x100_0000_0000 + p) * 4096 + lo;
  }

  lemma WithPsParts(f: nat)
    requires FlagBits(f)
    ensures FlagBits(WithPs(f)) && Large(WithPs(f)) && Present(WithPs(f)) == Present(f)
  {
    hide AddrOf, FlagsOf, Present, Large;
    if !Large(f) {
      FlagShape(f);
      var h, lo := f / 4096 / 0x100_0000_0000, f % 4096;
      Compose(h, 0, lo);
      AddPs(lo);
      Compose(h, 0, lo + 128);
    }
  }

  lemma AddPs(lo: nat)
    requires lo < 4096 && lo / 128 % 2 == 0
    ensures lo + 128 < 4096 && (lo + 128) % 2 == lo % 2 && (lo + 128) / 128 % 2 == 1
  {
    var l := lo / 128;
    QuotientUnique(lo + 128, 128, l + 1, lo % 128);
  }

  // ----- the walk -----

  type Tables = seq<seq<nat>>

  ghost predicate Shaped(tables: Tables) {
    forall k | 0 <= k < |tables| :: |tables[k]| == 512
  }

  predicate IsLeaf(level: nat, e: nat) {
    level == 1 || (level <= 3 && Large(e))
  }

  function Child(phys: nat, e: nat): int {
    (AddrOf(e) - phys) / 4096
  }

  /** What address `a` translates to from table `t` at `level` down. */
  ghost function Walk(phys: nat, tables: Tables, t: int, level: nat, a: nat): Option<Leaf>
    requires Shaped(tables) && 1 <= level <= 4
    decreases level
  {
    if !(0 <= t < |tables|) then None
    else
      var e := tables[t][Index(a, level)];
      if !Present(e) then None
      else if IsLeaf(level, e) then Some(Leaf(AddrOf(e) + a % Span(level), FlagsOf(e)))
      else Walk(phys, tables, Child(phys, e), level - 1, a)
  }

  ghost function Translate(phys: nat, tables: Tables, a: nat): Option<Leaf>
    requires Shaped(tables)
  {
    Walk(phys, tables, 0, 4, a)
  }

  // ----- well-formed tables -----

  /** Where a table hangs: its level and the indices leading to it. */
  datatype Slot = Slot(level: nat, prefix: nat)

  ghost predicate EntryOk(phys: nat, owner: seq<Slot>, slot: Slot, i: nat, e: nat) {
    Present(e) && !IsLeaf(slot.level, e) ==>
      && !Large(e) && slot.level >= 2
      && 0 <= Child(phys, e) < |owner|
      && AddrOf(e) == phys + 4096 * Child(phys, e)
      && owner[Child(phys, e)] == Slot(slot.level - 1, slot.prefix * 512 + i)
      && FlagsOf(e) == 3
  }

  /** Some entry points at table `c`. */
  ghost predicate HasParent(phys: nat, tables: Tables, owner: seq<Slot>, c: nat)
    requires Shaped(tables) && c < |owner| <= |tables|
  {
    var s := owner[c];
    exists k | 0 <= k < |owner| && owner[k] == Slot(s.level + 1, s.prefix / 512) :: Present(tables[k][s.prefix % 512])
  }

  /** The used tables form a tree with the PML4 at its root; unused ones are zero. */
  ghost predicate WellFormed(phys: nat, tables: Tables, owner: seq<Slot>) {
    && Shaped(tables)
    && 0 < |owner| <= |tables| && owner[0] == Slot(4, 0)
    && Distinct(owner)
    && (forall k | 0 <= k < |owner| :: 1 <= owner[k].level <= 4)
    && (forall k, i | 0 <= k < |owner| && 0 <= i < 512 :: EntryOk(phys, owner, owner[k], i, tables[k][i]))
    && (forall k, i | |owner| <= k < |tables| && 0 <= i < 512 :: tables[k][i] == 0)
    && (forall c | 0 < c < |owner| :: HasParent(phys, tables, owner, c))
  }

  function Put(tables: Tables, k: nat, i: nat, e: nat): (r: Tables)
    requires k < |tables| && i < |tables[k]|
    ensures |r| == |tables|
  {
    var row: seq<nat> := tables[k][i := e];
    tables[k := row]
  }

  /** Address `a` does not pass through entry `i` of table `k`. */
  ghost predicate Misses(owner: seq<Slot>, k: nat, i: nat, a: nat)
    requires k < |owner| && 1 <= owner[k].level <= 4
  {
    Part(a, owner[k].level) != owner[k].prefix * 512 + i
  }

  /** A write changes no walk that misses the entry. */
  lemma {:induction false} WalkFrame(
    phys: nat, tables: Tables, owner: seq<Slot>, k: nat, i: nat, e: nat, t: nat, level: nat, a: nat)
    requires WellFormed(phys, tables, owner) && k < |owner| && i < 512 && Misses(owner, k, i, a)
    requires t < |owner| && 1 <= level <= 4 && owner[t] == Slot(level, Part(a, level + 1))
    ensures Walk(phys, Put(tables, k, i, e), t, level, a) == Walk(phys, tables, t, level, a)
    decreases level
  {
    var e' := tables[t][Index(a, level)];
    assert EntryOk(phys, owner, owner[t], Index(a, level), e');
    assert Part(a, level) == Part(a, level + 1) * 512 + Index(a, level);
    hide Index, Part, AddrOf, FlagsOf, Large, Distinct, HasParent;
    assert Put(tables, k, i, e)[t][Index(a, level)] == e';
    if Present(e') && !IsLeaf(level, e') {
      WalkFrame(phys, tables, owner, k, i, e, Child(phys, e'), level - 1, a);
    }
  }

  // ----- the path to a table -----

  /** Walking `a` down from table `t` at `level` arrives at table `k` at level `at`. */
  ghost predicate PathTo(phys: nat, tables: Tables, t: int, level: nat, a: nat, k: nat, at: nat)
    requires Shaped(tables) && 1 <= level <= 4
    decreases level
  {
    && 0 <= t < |tables|
    && if level <= at then level == at && t == k
       else
         var e := tables[t][Index(a, level)];
         Present(e) && !IsLeaf(level, e) && PathTo(phys, tables, Child(phys, e), level - 1, a, k, at)
  }

  /** Below an absent entry there is no table. */
  lemma {:induction false} PathStops(phys: nat, tables: Tables, s: int, from: nat, a: nat, k: nat, at: nat, k': nat,
      l: nat)
    requires Shaped(tables) && 1 <= from <= 4 && 1 <= l < at <= 4 && PathTo(phys, tables, s, from, a, k, at)
    requires k < |tables| && !Present(tables[k][Index(a, at)])
    ensures !PathTo(phys, tables, s, from, a, k', l)
    decreases from
  {
    hide Index, Present, Child;
    if from > at {
      PathStops(phys, tables, Child(phys, tables[s][Index(a, from)]), from - 1, a, k, at, k', l);
    }
  }

  /** A table for `level` hangs on the way of an address. */
  ghost predicate HasTable(phys: nat, tables: Tables, a: nat, level: nat)
    requires Shaped(tables)
  {
    exists t: nat :: PathTo(phys, tables, 0, 4, a, t, level)
  }

  /** Why a leaf of `level` cannot go in: the address is mapped, or a table stands where the leaf would. */
  ghost predicate Taken(phys: nat, tables: Tables, a: nat, level: nat)
    requires Shaped(tables)
  {
    Translate(phys, tables, a).Some? || (level >= 2 && HasTable(phys, tables, a, level - 1))
  }

  lemma NotTaken(phys: nat, tables: Tables, a: nat, k: nat, at: nat, level: nat)
    requires Shaped(tables) && 1 <= level <= at <= 4 && PathTo(phys, tables, 0, 4, a, k, at) && k < |tables|
    requires !Present(tables[k][Index(a, at)]) && Translate(phys, tables, a) == None
    ensures !Taken(phys, tables, a, level)
  {
    hide PathTo, Present, Index, Translate;
    if level >= 2 && HasTable(phys, tables, a, level - 1) {
      var t: nat :| PathTo(phys, tables, 0, 4, a, t, level - 1);
      PathStops(phys, tables, 0, 4, a, k, at, t, level - 1);
    }
  }

  lemma {:induction false} WalkAlongPath(phys: nat, tables: Tables, t: int, level: nat, a: nat, k: nat, at: nat)
    requires Shaped(tables) && 1 <= level <= 4 && 1 <= at && PathTo(phys, tables, t, level, a, k, at)
    ensures Walk(phys, tables, t, level, a) == Walk(phys, tables, k, at, a)
    decreases level
  {
    if level > at {
      WalkAlongPath(phys, tables, Child(phys, tables[t][Index(a, level)]), level - 1, a, k, at);
    }
  }

  /** The path ends in the table that owns the address there. */
  lemma {:induction false} PathOwner(phys: nat, tables: Tables, owner: seq<Slot>, t: nat, level: nat, a: nat, k: nat,
      at: nat)
    requires WellFormed(phys, tables, owner) && 1 <= at <= level <= 4
    requires t < |owner| && owner[t] == Slot(level, Part(a, level + 1))
    requires PathTo(phys, tables, t, level, a, k, at)
    ensures k < |owner| && owner[k] == Slot(at, Part(a, at + 1))
    decreases level
  {
    if level > at {
      var e := tables[t][Index(a, level)];
      assert EntryOk(phys, owner, owner[t], Index(a, level), e);
      PathOwner(phys, tables, owner, Child(phys, e), level - 1, a, k, at);
    }
  }

  lemma {:induction false} SamePart(a: nat, b: nat, level: nat, higher: nat)
    requires 1 <= level <= higher <= 5 && Part(a, level) == Part(b, level)
    ensures Part(a, higher) == Part(b, higher) && (higher <= 4 ==> Index(a, higher) == Index(b, higher))
    decreases higher - level
  {
    if level <= 4 {
      assert Part(a, level) == Part(a, level + 1) * 512 + Index(a, level);
      assert Part(b, level) == Part(b, level + 1) * 512 + Index(b, level);
      if level < higher {
        SamePart(a, b, level + 1, higher);
      }
    }
  }

  /** Addresses that agree above a level share the path down to it. */
  lemma {:induction false} PathShared(phys: nat, tables: Tables, t: int, level: nat, a: nat, b: nat, k: nat, at: nat)
    requires Shaped(tables) && 1 <= level <= 4 && 1 <= at <= 4 && Part(a, at + 1) == Part(b, at + 1)
    requires PathTo(phys, tables, t, level, a, k, at)
    ensures PathTo(phys, tables, t, level, b, k, at)
    decreases level
  {
    if level > at {
      SamePart(a, b, at + 1, level);
      PathShared(phys, tables, Child(phys, tables[t][Index(a, level)]), level - 1, a, b, k, at);
    }
  }

  /** Writing into the table a path ends in does not disturb the path. */
  lemma {:induction false} PathKept(
    phys: nat, tables: Tables, owner: seq<Slot>, t: nat, level: nat, a: nat, k: nat, at: nat, i: nat, e: nat)
    requires WellFormed(phys, tables, owner) && 1 <= at <= level <= 4 && i < 512
    requires t < |owner| && owner[t] == Slot(level, Part(a, level + 1))
    requires k < |owner| && owner[k].level == at && PathTo(phys, tables, t, level, a, k, at)
    ensures PathTo(phys, Put(tables, k, i, e), t, level, a, k, at)
    decreases level
  {
    if level > at {
      var e' := tables[t][Index(a, level)];
      assert EntryOk(phys, owner, owner[t], Index(a, level), e');
      PathKept(phys, tables, owner, Child(phys, e'), level - 1, a, k, at, i, e);
    }
  }

  lemma {:induction false} PathExtends(phys: nat, tables: Tables, t: int, level: nat, a: nat, k: nat, at: nat)
    requires Shaped(tables) && 2 <= at <= level <= 4 && PathTo(phys, tables, t, level, a, k, at)
    requires k < |tables|
    requires var e := tables[k][Index(a, at)];
             Present(e) && !IsLeaf(at, e) && 0 <= Child(phys, e) < |tables|
    ensures PathTo(phys, tables, t, level, a, Child(phys, tables[k][Index(a, at)]), at - 1)
    decreases level
  {
    if level > at {
      PathExtends(phys, tables, Child(phys, tables[t][Index(a, level)]), level - 1, a, k, at);
    }
  }

  // ----- what a write does to translation -----

  lemma LeafHit(phys: nat, tables: Tables, owner: seq<Slot>, va: nat, k: nat, level: nat, e: nat, a: nat)
    requires WellFormed(phys, tables, owner) && 1 <= level <= 3 && PathTo(phys, tables, 0, 4, va, k, level)
    requires k < |owner| && owner[k].level == level && Part(a, level) == Part(va, level)
    requires !Present(tables[k][Index(va, level)]) && Present(e) && IsLeaf(level, e)
    ensures Translate(phys, tables, a) == None
    ensures Translate(phys, Put(tables, k, Index(va, level), e), a)
         == Some(Leaf(AddrOf(e) + a % Span(level), FlagsOf(e)))
  {
    hide Part, Up, AddrOf, FlagsOf, Present, EntryOk, Large;
    var i := Index(va, level);
    SamePart(a, va, level, level);
    SamePart(a, va, level, level + 1);
    PathShared(phys, tables, 0, 4, va, a, k, level);
    WalkAlongPath(phys, tables, 0, 4, a, k, level);
    RootPart(a);
    PathKept(phys, tables, owner, 0, 4, a, k, level, i, e);
    WalkAlongPath(phys, Put(tables, k, i, e), 0, 4, a, k, level);
  }

  lemma RootPart(a: nat)
    ensures Part(a, 5) == 0
  {
  }

  /** A leaf written into an absent entry maps the addresses it covers, which were unmapped, and no others. */
  lemma LeafWritten(phys: nat, tables: Tables, owner: seq<Slot>, va: nat, k: nat, level: nat, e: nat, a: nat)
    requires Shaped(tables) && 1 <= level <= 3 && k < |tables| && !Present(tables[k][Index(va, level)])
    requires WellFormed(phys, tables, owner) && PathTo(phys, tables, 0, 4, va, k, level) && Present(e)
             && IsLeaf(level, e)
    ensures var tables' := Put(tables, k, Index(va, level), e);
            && Shaped(tables')
            && if Part(a, level) == Part(va, level)
               then Translate(phys, tables, a) == None
                    && Translate(phys, tables', a) == Some(Leaf(AddrOf(e) + a % Span(level), FlagsOf(e)))
               else Translate(phys, tables', a) == Translate(phys, tables, a)
  {
    hide Up, AddrOf, FlagsOf, Present, EntryOk, Large, Walk, PathTo;
    PathOwner(phys, tables, owner, 0, 4, va, k, level);
    if Part(a, level) == Part(va, level) {
      LeafHit(phys, tables, owner, va, k, level, e, a);
    } else {
      WalkFrame(phys, tables, owner, k, Index(va, level), e, 0, 4, a);
    }
  }

  lemma ParentsKept(phys: nat, tables: Tables, owner: seq<Slot>, k: nat, i: nat, e: nat, owner': seq<Slot>)
    requires WellFormed(phys, tables, owner) && k < |owner| && i < 512 && !Present(tables[k][i])
    requires owner <= owner' && |owner'| <= |tables|
    ensures Shaped(Put(tables, k, i, e))
    ensures forall c | 0 < c < |owner| :: HasParent(phys, Put(tables, k, i, e), owner', c)
  {
    hide Present;
    forall c | 0 < c < |owner| ensures HasParent(phys, Put(tables, k, i, e), owner', c) {
      assert HasParent(phys, tables, owner, c);
      var s := owner[c];
      var p :| 0 <= p < |owner| && owner[p] == Slot(s.level + 1, s.prefix / 512) && Present(tables[p][s.prefix % 512]);
      assert owner'[p] == owner[p] && owner'[c] == s;
    }
  }

  lemma LeafWellFormed(phys: nat, tables: Tables, owner: seq<Slot>, k: nat, i: nat, e: nat)
    requires WellFormed(phys, tables, owner) && k < |owner| && i < 512 && IsLeaf(owner[k].level, e)
    requires !Present(tables[k][i])
    ensures WellFormed(phys, Put(tables, k, i, e), owner)
  {
    hide Present, HasParent;
    ParentsKept(phys, tables, owner, k, i, e, owner);
  }

  // ----- a new table -----

  /** The non-leaf entry for pool page `c`: present and writable. */
  function Pointer(phys: nat, c: nat): nat {
    phys + 4096 * c + 3
  }

  lemma PointerParts(phys: nat, c: nat)
    requires phys % 4096 == 0 && phys + 4096 * c < ADDR_LIMIT
    ensures Present(Pointer(phys, c)) && !Large(Pointer(phys, c)) && Child(phys, Pointer(phys, c)) == c
    ensures AddrOf(Pointer(phys, c)) == phys + 4096 * c && FlagsOf(Pointer(phys, c)) == 3
  {
    EntryParts(phys + 4096 * c, 3);
  }

  lemma SlotIsNew(phys: nat, tables: Tables, owner: seq<Slot>, k: nat, i: nat)
    requires WellFormed(phys, tables, owner) && k < |owner| && i < 512 && !Present(tables[k][i])
    ensures Slot(owner[k].level - 1, owner[k].prefix * 512 + i) !in owner
  {
    hide Present;
    var slot := owner[k];
    forall c | 0 <= c < |owner| ensures owner[c].level + 1 != slot.level || owner[c].prefix != slot.prefix * 512 + i {
      assert c > 0 ==> HasParent(phys, tables, owner, c);
    }
  }

  lemma AllocWellFormed(phys: nat, tables: Tables, owner: seq<Slot>, k: nat, i: nat)
    requires WellFormed(phys, tables, owner) && k < |owner| < |tables| && i < 512 && !Present(tables[k][i])
    requires owner[k].level >= 2 && phys % 4096 == 0 && phys + 4096 * |owner| < ADDR_LIMIT
    ensures WellFormed(phys, Put(tables, k, i, Pointer(phys, |owner|)),
                       owner + [Slot(owner[k].level - 1, owner[k].prefix * 512 + i)])
  {
    var slot := Slot(owner[k].level - 1, owner[k].prefix * 512 + i);
    var owner', e := owner + [slot], Pointer(phys, |owner|);
    var tables' := Put(tables, k, i, e);
    PointerParts(phys, |owner|);
    SlotIsNew(phys, tables, owner, k, i);
    ParentsKept(phys, tables, owner, k, i, e, owner');
    hide Pointer, Child, AddrOf, FlagsOf, Present, Large;
    assert HasParent(phys, tables', owner', |owner|) by {
      assert owner'[k] == Slot(slot.level + 1, slot.prefix / 512);
    }
    AllocEntries(phys, tables, owner, k, i);
  }

  lemma AllocEntries(phys: nat, tables: Tables, owner: seq<Slot>, k: nat, i: nat)
    requires WellFormed(phys, tables, owner) && k < |owner| < |tables| && i < 512 && !Present(tables[k][i])
    requires owner[k].level >= 2 && phys % 4096 == 0 && phys + 4096 * |owner| < ADDR_LIMIT
    ensures var slot := Slot(owner[k].level - 1, owner[k].prefix * 512 + i);
            var tables', owner' := Put(tables, k, i, Pointer(phys, |owner|)), owner + [slot];
            forall t, j | 0 <= t < |owner'| && 0 <= j < 512 :: EntryOk(phys, owner', owner'[t], j, tables'[t][j])
  {
    hide Distinct, HasParent;
    var slot := Slot(owner[k].level - 1, owner[k].prefix * 512 + i);
    var tables', owner' := Put(tables, k, i, Pointer(phys, |owner|)), owner + [slot];
    PointerParts(phys, |owner|);
    hide Pointer, Child, AddrOf, FlagsOf, Large;
    forall t, j | 0 <= t < |owner'| && 0 <= j < 512 ensures EntryOk(phys, owner', owner'[t], j, tables'[t][j]) {
      if t < |owner| && !(t == k && j == i) {
        assert EntryOk(phys, owner, owner[t], j, tables[t][j]);
      }
    }
  }

  /** Hanging an empty table into an absent entry changes no translation. */
  lemma AllocInvisible(phys: nat, tables: Tables, owner: seq<Slot>, va: nat, k: nat, level: nat, a: nat)
    requires WellFormed(phys, tables, owner) && 2 <= level <= 4 && PathTo(phys, tables, 0, 4, va, k, level)
    requires k < |tables| && |owner| < |tables| && !Present(tables[k][Index(va, level)])
    requires phys % 4096 == 0 && phys + 4096 * |owner| < ADDR_LIMIT
    ensures var tables' := Put(tables, k, Index(va, level), Pointer(phys, |owner|));
            Shaped(tables') && Translate(phys, tables', a) == Translate(phys, tables, a)
  {
    hide Up, AddrOf, FlagsOf, EntryOk, HasParent, Walk, PathTo;
    PathOwner(phys, tables, owner, 0, 4, va, k, level);
    var i, e := Index(va, level), Pointer(phys, |owner|);
    if Part(a, level) == Part(va, level) {
      AllocHit(phys, tables, owner, va, k, level, a);
    } else {
      WalkFrame(phys, tables, owner, k, i, e, 0, 4, a);
    }
  }

  lemma AllocHit(phys: nat, tables: Tables, owner: seq<Slot>, va: nat, k: nat, level: nat, a: nat)
    requires WellFormed(phys, tables, owner) && 2 <= level <= 4 && PathTo(phys, tables, 0, 4, va, k, level)
    requires k < |owner| < |tables| && owner[k].level == level && !Present(tables[k][Index(va, level)])
    requires phys % 4096 == 0 && phys + 4096 * |owner| < ADDR_LIMIT && Part(a, level) == Part(va, level)
    ensures Translate(phys, tables, a) == None
    ensures Translate(phys, Put(tables, k, Index(va, level), Pointer(phys, |owner|)), a) == None
  {
    var i, e := Index(va, level), Pointer(phys, |owner|);
    PointerParts(phys, |owner|);
    EmptyTable(phys, tables, |owner|, k, i, e, level - 1, a);
    hide Part, Up, AddrOf, FlagsOf, EntryOk, Large, Pointer, Child, HasParent;
    AllocHitPath(phys, tables, va, k, level, a);
    WalkAlongPath(phys, tables, 0, 4, a, k, level);
    RootPart(a);
    PathKept(phys, tables, owner, 0, 4, a, k, level, i, e);
    WalkAlongPath(phys, Put(tables, k, i, e), 0, 4, a, k, level);
  }

  /** An address in the same slot shares the path and the index. */
  lemma AllocHitPath(phys: nat, tables: Tables, va: nat, k: nat, level: nat, a: nat)
    requires Shaped(tables) && 2 <= level <= 4 && PathTo(phys, tables, 0, 4, va, k, level)
             && Part(a, level) == Part(va, level)
    ensures PathTo(phys, tables, 0, 4, a, k, level) && Index(a, level) == Index(va, level)
  {
    hide Part, Up;
    SamePart(a, va, level, level);
    SamePart(a, va, level, level + 1);
    PathShared(phys, tables, 0, 4, va, a, k, level);
  }

  lemma EmptyTable(phys: nat, tables: Tables, c: nat, k: nat, i: nat, e: nat, level: nat, a: nat)
    requires Shaped(tables) && c < |tables| && k < c && i < 512 && 1 <= level <= 4
    requires forall j | 0 <= j < 512 :: tables[c][j] == 0
    ensures Shaped(Put(tables, k, i, e)) && Walk(phys, Put(tables, k, i, e), c, level, a) == None
  {
  }

  /** The path to a table goes on into the table just hung below it. */
  lemma AllocPath(phys: nat, tables: Tables, owner: seq<Slot>, va: nat, k: nat, level: nat)
    requires WellFormed(phys, tables, owner) && 2 <= level <= 4 && PathTo(phys, tables, 0, 4, va, k, level)
    requires k < |tables| && |owner| < |tables|
    requires phys % 4096 == 0 && phys + 4096 * |owner| < ADDR_LIMIT
    ensures var tables' := Put(tables, k, Index(va, level), Pointer(phys, |owner|));
            Shaped(tables') && PathTo(phys, tables', 0, 4, va, |owner|, level - 1)
  {
    hide Part, Up, AddrOf, FlagsOf, EntryOk, HasParent, Pointer, Child;
    RootPart(va);
    PathOwner(phys, tables, owner, 0, 4, va, k, level);
    PointerParts(phys, |owner|);
    PathKept(phys, tables, owner, 0, 4, va, k, level, Index(va, level), Pointer(phys, |owner|));
    PathExtends(phys, Put(tables, k, Index(va, level), Pointer(phys, |owner|)), 0, 4, va, k, level);
  }
}
