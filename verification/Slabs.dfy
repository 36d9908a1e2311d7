/** A slab cache: allocation through a magazine of ready objects, freeing with double-free detection, and the return
    of empty slabs to the page allocator. */
module Slabs {
  import opened Sequences
  import opened SlabState

  const MAG_MAX := 32
  const EMPTY_KEEP := 1

  ghost function InMagazine(mag: seq<Object>): set<Object> {
    set o | o in mag
  }

  /** The objects that are on no free list: those in the magazine and those with callers. */
  ghost function OutOf(mag: seq<Object>, held: set<Object>): set<Object> {
    InMagazine(mag) + held
  }

  /** No object is twice in the magazine, nor there and with a caller. */
  ghost predicate Shared(mag: seq<Object>, held: set<Object>) {
    Distinct(mag) && InMagazine(mag) !! held
  }

  class SlabCache {
    const n: nat
    const capacity: nat
    const batch: nat
    var slabs: map<nat, Slab>
    var partial: seq<nat>
    var full: seq<nat>
    var empty: seq<nat>
    var slabCount: nat
    var emptySlabCount: nat
    var mag: seq<Object>
    var handedOut: int
    ghost var free: map<nat, seq<nat>>
    ghost var held: set<Object>

    ghost predicate Sizes() {
      0 < n <= MAX_OBJECTS && 4 <= capacity <= MAG_MAX && batch == capacity / 2
    }

    /** `cached` are the magazine's objects; the slabs in `but` may be on the wrong list. */
    ghost predicate Core(cached: seq<Object>, but: set<nat>)
      reads this
    {
      && Sizes() && free.Keys == slabs.Keys && SlabsOk(slabs, free, n, OutOf(cached, held)) && Shared(cached, held)
      && HomesBut(slabs, n, partial, full, empty, but)
      && emptySlabCount == |empty| && slabCount == |slabs| && handedOut == |held|
    }

    ghost predicate Valid()
      reads this
    {
      Core(mag, {}) && |mag| <= capacity
    }

    constructor (n: nat, capacity: nat)
      requires 0 < n <= MAX_OBJECTS && 4 <= capacity <= MAG_MAX
      ensures Valid() && held == {} && mag == [] && this.n == n && this.capacity == capacity && slabs == map[]
    {
      this.n, this.capacity, batch := n, capacity, capacity / 2;
      slabs, partial, full, empty, slabCount, emptySlabCount, mag, handedOut := map[], [], [], [], 0, 0, [], 0;
      free, held := map[], {};
      new;
      assert InMagazine(mag) == {};
    }

    /** Moves a slab to the list its free count calls for. */
    method Rehome(s: nat, ghost cached: seq<Object>)
      requires Core(cached, {s}) && s in slabs
      modifies this`slabs, this`partial, this`full, this`empty, this`emptySlabCount
      ensures Core(cached, {})
      ensures slabs == old(slabs)[s := old(slabs)[s].(list := KindFor(old(slabs)[s], n))]
    {
      hide SlabsOk, SlabOk, HomesBut, Shared, OutOf, Distinct, Without;
      var slab := slabs[s];
      var want := KindFor(slab, n);
      if slab.list == want {
        HomeAlready(slabs, n, partial, full, empty, s);
        assert slabs == slabs[s := slab.(list := want)];
        return;
      }
      NewHome(slabs, n, partial, full, empty, s, want);
      ListOnly(slabs, free, n, OutOf(cached, held), s, want);
      if slab.list == Empty {
        emptySlabCount := emptySlabCount - 1;
      }
      if slab.list == Full {
        full := Without(full, s);
      } else if slab.list == Empty {
        empty := Without(empty, s);
      } else {
        partial := Without(partial, s);
      }
      if want == Full {
        full := [s] + full;
      } else if want == Empty {
        empty := [s] + empty;
      } else {
        partial := [s] + partial;
      }
      if want == Empty {
        emptySlabCount := emptySlabCount + 1;
      }
      slabs := slabs[s := slab.(list := want)];
    }

    /** Gives the first empty slab back to the page allocator. */
    method ReleaseOne(ghost cached: seq<Object>) returns (s: nat)
      requires Core(cached, {}) && emptySlabCount > 0
      modifies this`slabs, this`empty, this`slabCount, this`emptySlabCount, this`free
      ensures Core(cached, {}) && emptySlabCount == old(emptySlabCount) - 1
      ensures s in old(slabs) && old(slabs)[s].freeCount == n && slabs == old(slabs) - {s}
    {
      hide *;
      Opened(cached);
      s := empty[0];
      DropEmpty(slabs, free, n, OutOf(cached, held), partial, full, empty, s);
      empty := empty[1..];
      emptySlabCount := emptySlabCount - 1;
      slabCount := slabCount - 1;
      slabs := slabs - {s};
      free := free - {s};
      Closed(cached);
    }

    lemma Opened(cached: seq<Object>)
      requires Core(cached, {})
      ensures Sizes() && free.Keys == slabs.Keys && SlabsOk(slabs, free, n, OutOf(cached, held)) && Shared(cached, held)
      ensures HomesBut(slabs, n, partial, full, empty, {})
      ensures emptySlabCount == |empty| && slabCount == |slabs| && handedOut == |held|
    {
    }

    lemma Closed(cached: seq<Object>)
      requires Sizes() && free.Keys == slabs.Keys && SlabsOk(slabs, free, n, OutOf(cached, held))
      requires Shared(cached, held)
      requires HomesBut(slabs, n, partial, full, empty, {})
      requires emptySlabCount == |empty| && slabCount == |slabs| && handedOut == |held|
      ensures Core(cached, {})
    {
    }

    /** Gives empty slabs beyond `keep` back to the page allocator. */
    method Reclaim(keep: nat, ghost cached: seq<Object>)
      requires Core(cached, {})
      modifies this`slabs, this`empty, this`slabCount, this`emptySlabCount, this`free
      ensures Core(cached, {}) && emptySlabCount == Least(old(emptySlabCount), keep)
      ensures forall s | s in old(slabs) && s !in slabs :: old(slabs)[s].freeCount == n
      ensures forall s | s in slabs :: s in old(slabs) && slabs[s] == old(slabs)[s]
    {
      hide SlabsOk, SlabOk, Shared, HomesBut, Distinct, OutOf, Core;
      while emptySlabCount > keep
        invariant Core(cached, {}) && emptySlabCount <= old(emptySlabCount)
                  && (emptySlabCount < old(emptySlabCount) ==> emptySlabCount >= keep)
        invariant forall s | s in old(slabs) && s !in slabs :: old(slabs)[s].freeCount == n
        invariant forall s | s in slabs :: s in old(slabs) && slabs[s] == old(slabs)[s]
        decreases emptySlabCount
      {
        var s := ReleaseOne(cached);
      }
    }

    /** Puts the magazine's first object back on its own slab's free list. */
    method PushObject(o: Object, ghost cached: seq<Object>)
      requires Core(cached, {}) && cached != [] && o == cached[0]
      modifies this`slabs, this`partial, this`full, this`empty, this`emptySlabCount, this`free
      ensures Core(cached[1..], {}) && slabs.Keys == old(slabs.Keys)
    {
      hide SlabsOk, SlabOk, Distinct, OutOf, Shared, HomesBut;
      FrontIsOut(cached, held);
      PushSlab(slabs, free, n, OutOf(cached, held), o);
      PushHome(slabs, n, partial, full, empty, o);
      SizeKept(slabs, o.slab, Pushed(slabs[o.slab], o.index));
      free := free[o.slab := [o.index] + free[o.slab]];
      slabs := slabs[o.slab := Pushed(slabs[o.slab], o.index)];
      Rehome(o.slab, cached[1..]);
    }

    /** Takes the first free object of a slab into the magazine. */
    method TakeOne(s: nat)
      requires s in slabs && Core(mag, {s}) && slabs[s].freeCount > 0
      modifies this`slabs, this`mag, this`free
      ensures s in slabs && Core(mag, {s}) && slabs.Keys == old(slabs.Keys)
              && slabs[s].freeCount == old(slabs)[s].freeCount - 1
      ensures |mag| == |old(mag)| + 1
    {
      hide SlabsOk, SlabOk, Distinct, OutOf, Shared, HomesBut;
      PopSlab(slabs, free, n, OutOf(mag, held), s);
      PopHome(slabs, n, partial, full, empty, s);
      SizeKept(slabs, s, Popped(slabs[s]));
      var o := Object(s, slabs[s].freeHead);
      OneMoreCached(mag, held, o);
      free := free[s := free[s][1..]];
      slabs := slabs[s := Popped(slabs[s])];
      mag := mag + [o];
    }

    /** Takes up to `need` objects from a slab into the magazine. */
    method TakeFrom(s: nat, need: nat) returns (left: nat)
      requires Core(mag, {}) && s in slabs
      modifies this`slabs, this`partial, this`full, this`empty, this`emptySlabCount, this`mag, this`free
      ensures Core(mag, {}) && left == need - Least(need, old(slabs)[s].freeCount) && |mag| == |old(mag)| + need - left
      ensures slabs.Keys == old(slabs.Keys)
    {
      hide SlabsOk, SlabOk, Distinct, OutOf, Shared, HomesBut;
      left := need;
      WeakerHome(slabs, n, partial, full, empty, s);
      hide Core;
      while left > 0 && slabs[s].freeCount > 0
        invariant s in slabs && Core(mag, {s}) && slabs.Keys == old(slabs.Keys)
        invariant 0 <= left <= need && slabs[s].freeCount + need == old(slabs)[s].freeCount + left
                  && |mag| == |old(mag)| + need - left
      {
        TakeOne(s);
        left := left - 1;
      }
      Rehome(s, mag);
    }

    /** Takes a new slab from the page allocator, all of its objects free. */
    method Grow(s: nat)
      requires Core(mag, {}) && s !in slabs
      modifies this`slabs, this`empty, this`slabCount, this`emptySlabCount, this`free
      ensures Core(mag, {}) && slabs.Keys == old(slabs.Keys) + {s} && slabs[s].freeCount == n
    {
      hide SlabsOk, SlabOk, Distinct, OutOf, Shared, HomesBut;
      var slab := Carve(n);
      AddSlab(slabs, free, n, OutOf(mag, held), s, slab);
      AddHome(slabs, n, partial, full, empty, s, slab);
      free := free[s := Run(0, n)];
      empty := [s] + empty;
      slabs := slabs[s := slab];
      slabCount := slabCount + 1;
      emptySlabCount := emptySlabCount + 1;
    }

    /** Fills the empty magazine with a batch. `supply` are the slabs the page allocator would hand out if asked. */
    method Refill(supply: seq<nat>)
      requires Valid() && mag == [] && Distinct(supply) && forall s | s in supply :: s !in slabs
      modifies this`slabs, this`partial, this`full, this`empty, this`slabCount, this`emptySlabCount, this`mag, this`free
      ensures Valid()
      ensures mag == [] <==> old(partial) == [] && old(empty) == [] && supply == []
    {
      hide SlabsOk, SlabOk, Distinct, OutOf, Shared, HomesBut;
      var need := batch;
      var k := 0;
      while need > 0
        invariant Core(mag, {}) && 0 <= k <= |supply| && |mag| + need == batch
        invariant forall i | k <= i < |supply| :: supply[i] !in slabs
        invariant mag == [] ==> partial == old(partial) && empty == old(empty) && k == 0
        invariant mag != [] ==> old(partial) != [] || old(empty) != [] || supply != []
        decreases need
      {
        var s;
        if partial != [] {
          s := partial[0];
          FromPartial(slabs, n, partial, full, empty, s);
        } else if empty != [] {
          s := empty[0];
          IsAllFree(slabs, n, partial, full, empty, s);
        } else {
          if k == |supply| {
            break;
          }
          s := supply[k];
          NotAgain(supply, k);
          Grow(s);
          k := k + 1;
        }
        need := TakeFrom(s, need);
      }
    }

    /** Hands out an object; only without memory for another slab is there none. */
    method Alloc(supply: seq<nat>) returns (ok: bool, o: Object)
      requires Valid() && Distinct(supply) && forall s | s in supply :: s !in slabs
      modifies this`slabs, this`partial, this`full, this`empty, this`slabCount, this`emptySlabCount, this`mag,
               this`free, this`held, this`handedOut
      ensures Valid()
      ensures ok <==> old(mag) != [] || old(partial) != [] || old(empty) != [] || supply != []
      ensures ok ==> o !in old(held) && held == old(held) + {o} && o.slab in slabs && o.index < n
      ensures !ok ==> held == old(held)
    {
      hide Core, SlabsOk, SlabOk, Distinct, OutOf, Shared, HomesBut;
      o := Object(0, 0);
      if mag == [] {
        Refill(supply);
      }
      if mag == [] {
        return false, o;
      }
      o := TakeLast();
      ok := true;
    }

    method TakeLast() returns (o: Object)
      requires Valid() && mag != []
      modifies this`mag, this`held, this`handedOut
      ensures Valid() && o !in old(held) && held == old(held) + {o} && o.slab in slabs && o.index < n
    {
      hide SlabsOk, SlabOk, Distinct, OutOf, Shared, HomesBut;
      o := mag[|mag| - 1];
      LastOut(slabs, free, n, mag, held);
      mag := mag[..|mag| - 1];
      held := held + {o};
      handedOut := handedOut + 1;
    }

    /** Whether a slot is with a caller: on no free list and not waiting in the magazine. */
    method IsHeld(o: Object) returns (yes: bool)
      requires Valid() && o.slab in slabs && o.index < n
      ensures yes <==> o in held
    {
      hide SlabsOk, SlabOk, Distinct, OutOf, Shared, HomesBut;
      BusyMeansOut(slabs, free, n, mag, held, o);
      if slabs[o.slab].bufctl[o.index] != BUSY {
        return false;
      }
      var i := 0;
      while i < |mag|
        invariant 0 <= i <= |mag| && forall k | 0 <= k < i :: mag[k] != o
      {
        if mag[i] == o {
          return false;
        }
        i := i + 1;
      }
      return true;
    }

    /** Takes an object back from its caller. A slot that is free already, or waiting in the magazine, is refused. */
    method Free(o: Object) returns (accepted: bool)
      requires Valid() && o.slab in slabs && o.index < n
      modifies this`slabs, this`partial, this`full, this`empty, this`slabCount, this`emptySlabCount, this`mag,
               this`free, this`held, this`handedOut
      ensures Valid()
      ensures accepted <==> o in old(held)
      ensures accepted ==> held == old(held) - {o}
      ensures !accepted ==> held == old(held) && slabs == old(slabs) && mag == old(mag)
    {
      hide Core, SlabsOk, SlabOk, Distinct, OutOf, Shared, HomesBut;
      accepted := IsHeld(o);
      if !accepted {
        return;
      }
      MakeRoom();
      Deposit(o);
    }

    /** A full magazine gives a batch back to the slabs, and all but one empty slab to the page allocator. */
    method MakeRoom()
      requires Valid()
      modifies this`slabs, this`partial, this`full, this`empty, this`slabCount, this`emptySlabCount, this`mag, this`free
      ensures Valid() && |mag| < capacity
      ensures old(|mag|) < capacity ==> mag == old(mag) && slabs == old(slabs)
      ensures old(|mag|) == capacity ==> mag == old(mag)[batch..] && emptySlabCount <= EMPTY_KEEP
    {
      hide SlabsOk, SlabOk, Distinct, OutOf, Shared, HomesBut;
      assert Sizes();
      hide Core;
      if |mag| >= capacity {
        FlushFront(batch);
        Reclaim(EMPTY_KEEP, mag);
      }
    }

    method Deposit(o: Object)
      requires Valid() && |mag| < capacity && o in held
      modifies this`mag, this`held, this`handedOut
      ensures Valid() && held == old(held) - {o} && mag == old(mag) + [o]
    {
      hide SlabsOk, SlabOk, Distinct, OutOf, Shared, HomesBut;
      BackToMagazine(mag, held, o);
      mag := mag + [o];
      held := held - {o};
      handedOut := handedOut - 1;
    }

    /** Returns the magazine's oldest `count` objects to their slabs. */
    method FlushFront(count: nat)
      requires Core(mag, {}) && count <= |mag|
      modifies this`slabs, this`partial, this`full, this`empty, this`emptySlabCount, this`mag, this`free
      ensures Core(mag, {}) && mag == old(mag)[count..] && slabs.Keys == old(slabs.Keys)
    {
      hide SlabsOk, SlabOk, Distinct, OutOf, Shared, HomesBut;
      var i := 0;
      assert mag[0..] == mag;
      while i < count
        invariant 0 <= i <= count && mag == old(mag) && Core(mag[i..], {}) && slabs.Keys == old(slabs.Keys)
      {
        assert mag[i..][1..] == mag[i + 1..];
        PushObject(mag[i], mag[i..]);
        i := i + 1;
      }
      mag := mag[count..];
    }

    /** Empties the magazine and returns every empty slab. */
    method Shrink()
      requires Valid()
      modifies this`slabs, this`partial, this`full, this`empty, this`slabCount, this`emptySlabCount, this`mag, this`free
      ensures Valid() && mag == [] && empty == []
      ensures forall s | s in slabs :: exists o :: o in held && o.slab == s
    {
      hide SlabsOk, SlabOk, Distinct, OutOf, Shared, HomesBut;
      FlushFront(|mag|);
      assert mag == [];
      Reclaim(0, mag);
      forall s | s in slabs ensures exists o :: o in held && o.slab == s {
        SomeHeld(slabs, free, n, partial, full, empty, held, s);
      }
    }
  }

  lemma FrontIsOut(cached: seq<Object>, held: set<Object>)
    requires cached != [] && Shared(cached, held)
    ensures cached[0] in OutOf(cached, held)
    ensures OutOf(cached, held) - {cached[0]} == OutOf(cached[1..], held)
    ensures Shared(cached[1..], held)
  {
    assert cached == [cached[0]] + cached[1..];
    assert cached[0] in InMagazine(cached);
    assert cached[0] !in cached[1..];
    assert InMagazine(cached[1..]) == InMagazine(cached) - {cached[0]};
  }

  lemma OneMoreCached(mag: seq<Object>, held: set<Object>, o: Object)
    requires Shared(mag, held) && o !in OutOf(mag, held)
    ensures OutOf(mag + [o], held) == OutOf(mag, held) + {o} && Shared(mag + [o], held)
  {
    assert InMagazine(mag + [o]) == InMagazine(mag) + {o};
  }

  lemma BackToMagazine(mag: seq<Object>, held: set<Object>, o: Object)
    requires Shared(mag, held) && o in held
    ensures OutOf(mag + [o], held - {o}) == OutOf(mag, held) && |held - {o}| == |held| - 1
    ensures Shared(mag + [o], held - {o})
  {
    assert InMagazine(mag + [o]) == InMagazine(mag) + {o};
    assert o !in InMagazine(mag);
  }

  lemma LastOut(slabs: map<nat, Slab>, free: map<nat, seq<nat>>, n: nat, mag: seq<Object>, held: set<Object>)
    requires mag != [] && SlabsOk(slabs, free, n, OutOf(mag, held)) && Shared(mag, held)
    ensures var o, rest := mag[|mag| - 1], mag[..|mag| - 1];
            && o !in held && o.slab in slabs && o.index < n && |held + {o}| == |held| + 1
            && OutOf(rest, held + {o}) == OutOf(mag, held) && Shared(rest, held + {o})
  {
    hide SlabOk;
    var o, rest := mag[|mag| - 1], mag[..|mag| - 1];
    assert mag == rest + [o];
    assert o in InMagazine(mag);
    assert o !in rest;
    assert InMagazine(rest) == InMagazine(mag) - {o};
    assert IsBusy(slabs, o);
    SlabCounts(slabs[o.slab], free[o.slab], n);
  }

  lemma BusyMeansOut(slabs: map<nat, Slab>, free: map<nat, seq<nat>>, n: nat, mag: seq<Object>, held: set<Object>,
      o: Object)
    requires SlabsOk(slabs, free, n, OutOf(mag, held)) && Shared(mag, held) && o.slab in slabs && o.index < n
    ensures o.index < |slabs[o.slab].bufctl|
    ensures o in held <==> slabs[o.slab].bufctl[o.index] == BUSY && o !in mag
  {
    hide SlabOk;
    SlabCounts(slabs[o.slab], free[o.slab], n);
    assert o in OutOf(mag, held) <==> IsBusy(slabs, o);
  }

  lemma SizeKept(slabs: map<nat, Slab>, s: nat, slab: Slab)
    requires s in slabs
    ensures |slabs[s := slab]| == |slabs| && slabs[s := slab].Keys == slabs.Keys
  {
    assert slabs[s := slab].Keys == slabs.Keys;
    KeysSize(slabs);
    KeysSize(slabs[s := slab]);
  }

  lemma PushHome(slabs: map<nat, Slab>, n: nat, partial: seq<nat>, full: seq<nat>, empty: seq<nat>, o: Object)
    requires HomesBut(slabs, n, partial, full, empty, {}) && o.slab in slabs && o.index < |slabs[o.slab].bufctl|
    ensures HomesBut(slabs[o.slab := Pushed(slabs[o.slab], o.index)], n, partial, full, empty, {o.slab})
  {
  }

  lemma PopHome(slabs: map<nat, Slab>, n: nat, partial: seq<nat>, full: seq<nat>, empty: seq<nat>, s: nat)
    requires HomesBut(slabs, n, partial, full, empty, {s}) && s in slabs && slabs[s].freeHead < |slabs[s].bufctl|
    ensures HomesBut(slabs[s := Popped(slabs[s])], n, partial, full, empty, {s})
  {
  }

  lemma HomeAlready(slabs: map<nat, Slab>, n: nat, partial: seq<nat>, full: seq<nat>, empty: seq<nat>, s: nat)
    requires HomesBut(slabs, n, partial, full, empty, {s}) && s in slabs && slabs[s].list == KindFor(slabs[s], n)
    ensures HomesBut(slabs, n, partial, full, empty, {})
  {
  }

  lemma WeakerHome(slabs: map<nat, Slab>, n: nat, partial: seq<nat>, full: seq<nat>, empty: seq<nat>, s: nat)
    requires HomesBut(slabs, n, partial, full, empty, {})
    ensures HomesBut(slabs, n, partial, full, empty, {s})
  {
  }

  lemma AddHome(slabs: map<nat, Slab>, n: nat, partial: seq<nat>, full: seq<nat>, empty: seq<nat>, s: nat, slab: Slab)
    requires HomesBut(slabs, n, partial, full, empty, {}) && s !in slabs && slab.list == Empty
             && slab.freeCount == n > 0
    ensures HomesBut(slabs[s := slab], n, partial, full, [s] + empty, {}) && |slabs[s := slab]| == |slabs| + 1
  {
    OneMore(slabs, s, slab);
    DistinctCons(s, empty);
    hide Distinct, KindFor;
    var more := slabs[s := slab];
    assert Listed(more, partial, Partial) && Listed(more, full, Full);
    assert Listed(more, [s] + empty, Empty);
  }

  lemma OneMore(slabs: map<nat, Slab>, s: nat, slab: Slab)
    requires s !in slabs
    ensures |slabs[s := slab]| == |slabs| + 1
  {
    assert slabs[s := slab].Keys == slabs.Keys + {s};
    KeysSize(slabs);
    KeysSize(slabs[s := slab]);
  }

  lemma FromPartial(slabs: map<nat, Slab>, n: nat, partial: seq<nat>, full: seq<nat>, empty: seq<nat>, s: nat)
    requires HomesBut(slabs, n, partial, full, empty, {}) && s in partial
    ensures s in slabs && slabs[s].freeCount > 0
  {
  }

  lemma NotAgain(supply: seq<nat>, k: nat)
    requires Distinct(supply) && k < |supply|
    ensures forall i | k < i < |supply| :: supply[i] != supply[k]
  {
  }

  /** After a shrink every slab left has an object that a caller still holds. */
  lemma SomeHeld(slabs: map<nat, Slab>, free: map<nat, seq<nat>>, n: nat, partial: seq<nat>, full: seq<nat>,
      empty: seq<nat>, held: set<Object>, s: nat)
    requires SlabsOk(slabs, free, n, OutOf([], held)) && HomesBut(slabs, n, partial, full, empty, {}) && empty == []
             && s in slabs && n > 0
    ensures exists o :: o in held && o.slab == s
  {
    var slab := slabs[s];
    assert s !in empty;
    assert slab.freeCount != n;
    assert SlabOk(slab, free[s], n);
    if forall i | 0 <= i < n :: slab.bufctl[i] != BUSY {
      AllOnList(slab, free[s], n);
    }
    var i :| 0 <= i < n && slab.bufctl[i] == BUSY;
    assert IsBusy(slabs, Object(s, i));
    assert InMagazine([]) == {};
  }

  lemma AllOnList(s: Slab, free: seq<nat>, n: nat)
    requires SlabOk(s, free, n) && forall i | 0 <= i < n :: s.bufctl[i] != BUSY
    ensures s.freeCount == n
  {
    RunIs(0, n);
    var all := set i | i in Run(0, n);
    DistinctCount(Run(0, n), all);
    DistinctCount(free, all);
  }

  /** A new slab: all objects linked in order. */
  method Carve(n: nat) returns (slab: Slab)
    requires 0 < n <= MAX_OBJECTS
    ensures SlabOk(slab, Run(0, n), n) && slab.list == Empty && slab.freeCount == n
  {
    var bufctl := [];
    var i := 0;
    while i < n
      invariant 0 <= i <= n && |bufctl| == i
      invariant forall k | 0 <= k < i :: bufctl[k] == if k + 1 < n then k + 1 else END
    {
      bufctl := bufctl + [if i + 1 < n then i + 1 else END];
      i := i + 1;
    }
    slab := Slab(bufctl, 0, n, Empty);
    RunIs(0, n);
    CarvedLinked(bufctl, n, 0);
  }

  function Least(a: int, b: int): int {
    if a < b then a else b
  }

  lemma ListOnly(slabs: map<nat, Slab>, free: map<nat, seq<nat>>, n: nat, out: set<Object>, s: nat, kind: ListKind)
    requires SlabsOk(slabs, free, n, out) && s in slabs
    ensures SlabsOk(slabs[s := slabs[s].(list := kind)], free, n, out)
            && |slabs[s := slabs[s].(list := kind)]| == |slabs|
  {
    var slabs' := slabs[s := slabs[s].(list := kind)];
    assert slabs'.Keys == slabs.Keys;
    KeysSize(slabs);
    KeysSize(slabs');
    forall o ensures IsBusy(slabs', o) <==> IsBusy(slabs, o) {
    }
  }

  lemma KeysSize(slabs: map<nat, Slab>)
    ensures |slabs| == |slabs.Keys|
  {
  }

  /** The slab leaves the list it is on for the front of the one it wants. */
  lemma NewHome(slabs: map<nat, Slab>, n: nat, partial: seq<nat>, full: seq<nat>, empty: seq<nat>, s: nat,
      want: ListKind)
    requires HomesBut(slabs, n, partial, full, empty, {s}) && s in slabs && want == KindFor(slabs[s], n)
             && slabs[s].list != want
    ensures slabs[s].list != NoList && (slabs[s].list == Empty ==> |Without(empty, s)| == |empty| - 1 >= 0)
    ensures HomesBut(slabs[s := slabs[s].(list := want)], n, MovedList(slabs, partial, Partial, s, want),
                     MovedList(slabs, full, Full, s, want), MovedList(slabs, empty, Empty, s, want), {})
  {
    hide Listed, Without;
    ListedMove(slabs, partial, Partial, s, want);
    ListedMove(slabs, full, Full, s, want);
    ListedMove(slabs, empty, Empty, s, want);
    ListLength(slabs, empty, s);
  }

  function MovedList(slabs: map<nat, Slab>, list: seq<nat>, kind: ListKind, s: nat, want: ListKind): seq<nat>
    requires s in slabs
  {
    if kind == want then [s] + list else if kind == slabs[s].list then Without(list, s) else list
  }

  lemma ListLength(slabs: map<nat, Slab>, empty: seq<nat>, s: nat)
    requires Listed(slabs, empty, Empty) && s in slabs
    ensures slabs[s].list == Empty ==> |Without(empty, s)| == |empty| - 1 >= 0
  {
    WithoutOne(empty, s);
  }

  lemma IsAllFree(slabs: map<nat, Slab>, n: nat, partial: seq<nat>, full: seq<nat>, empty: seq<nat>, s: nat)
    requires HomesBut(slabs, n, partial, full, empty, {}) && s in empty
    ensures s in slabs && slabs[s].freeCount == n && slabs[s].list == Empty
  {
  }

  /** The first empty slab can go: no object of it is out, and lists and counts follow. */
  lemma DropEmpty(slabs: map<nat, Slab>, free: map<nat, seq<nat>>, n: nat, out: set<Object>,
                  partial: seq<nat>, full: seq<nat>, empty: seq<nat>, s: nat)
    requires SlabsOk(slabs, free, n, out) && HomesBut(slabs, n, partial, full, empty, {}) && free.Keys == slabs.Keys
    requires empty != [] && s == empty[0]
    ensures s in slabs && slabs[s].freeCount == n && |slabs - {s}| == |slabs| - 1
    ensures SlabsOk(slabs - {s}, free - {s}, n, out) && (free - {s}).Keys == (slabs - {s}).Keys
    ensures HomesBut(slabs - {s}, n, partial, full, empty[1..], {})
  {
    hide SlabsOk, HomesBut;
    IsAllFree(slabs, n, partial, full, empty, s);
    DropSlab(slabs, free, n, out, s);
    DropHome(slabs, n, partial, full, empty, s);
    DropOne(slabs, s);
  }

  lemma DropHome(slabs: map<nat, Slab>, n: nat, partial: seq<nat>, full: seq<nat>, empty: seq<nat>, s: nat)
    requires HomesBut(slabs, n, partial, full, empty, {}) && empty != [] && s == empty[0]
    ensures HomesBut(slabs - {s}, n, partial, full, empty[1..], {})
  {
    assert s in empty;
    assert empty == [s] + empty[1..];
  }

  lemma DropOne(slabs: map<nat, Slab>, s: nat)
    requires s in slabs
    ensures |slabs - {s}| == |slabs| - 1
  {
    assert (slabs - {s}).Keys == slabs.Keys - {s};
    KeysSize(slabs);
    KeysSize(slabs - {s});
  }
}
