/** The objects of one slab cache: free lists threaded through each slab, and who has what is not free. */
module SlabState {
  import opened Sequences

  const END := 0xFFFF
  const BUSY := 0xFFFE
  const MAX_OBJECTS := 1024

  datatype ListKind = NoList | Partial | Full | Empty

  /** `bufctl[i]` is the index after `i` on the free list, `END`, or `BUSY` when `i` is not on it. */
  datatype Slab = Slab(bufctl: seq<nat>, freeHead: nat, freeCount: nat, list: ListKind)

  datatype Object = Object(slab: nat, index: nat)

  // ----- one slab -----

  /** The links from `head` run through `free`. */
  ghost predicate Links(bufctl: seq<nat>, head: nat, free: seq<nat>)
    decreases free
  {
    if free == [] then head == END
    else head == free[0] && free[0] < |bufctl| && Links(bufctl, bufctl[free[0]], free[1..])
  }

  ghost predicate SlabOk(s: Slab, free: seq<nat>, n: nat) {
    && |s.bufctl| == n <= MAX_OBJECTS && s.freeCount == |free| && Distinct(free) && Links(s.bufctl, s.freeHead, free)
    && (forall i | 0 <= i < n :: i in free <==> s.bufctl[i] != BUSY)
    && (forall i | i in free :: i < n)
  }

  lemma {:induction false} LinksKept(b: seq<nat>, b': seq<nat>, head: nat, free: seq<nat>)
    requires Links(b, head, free) && |b'| == |b| && forall i | i in free && i < |b| :: b'[i] == b[i]
    ensures Links(b', head, free)
    decreases free
  {
    if free != [] {
      LinksKept(b, b', b[free[0]], free[1..]);
    }
  }

  function Popped(s: Slab): Slab
    requires s.freeHead < |s.bufctl|
  {
    s.(freeHead := s.bufctl[s.freeHead], bufctl := s.bufctl[s.freeHead := BUSY],
      freeCount := if s.freeCount > 0 then s.freeCount - 1 else 0)
  }

  function Pushed(s: Slab, i: nat): Slab
    requires i < |s.bufctl|
  {
    s.(bufctl := s.bufctl[i := s.freeHead], freeHead := i, freeCount := s.freeCount + 1)
  }

  lemma RestIs(free: seq<nat>)
    requires Distinct(free) && free != []
    ensures Distinct(free[1..]) && forall x :: x in free[1..] <==> x in free && x != free[0]
  {
    assert free == [free[0]] + free[1..];
  }

  lemma PopOk(s: Slab, free: seq<nat>, n: nat)
    requires SlabOk(s, free, n) && s.freeCount > 0
    ensures s.freeHead < n && s.freeHead == free[0] && s.bufctl[s.freeHead] != BUSY && SlabOk(Popped(s), free[1..], n)
  {
    hide Distinct;
    assert free[0] in free;
    RestIs(free);
    LinksKept(s.bufctl, Popped(s).bufctl, Popped(s).freeHead, free[1..]);
  }

  lemma PushOk(s: Slab, free: seq<nat>, n: nat, i: nat)
    requires SlabOk(s, free, n) && i < n && s.bufctl[i] == BUSY
    ensures SlabOk(Pushed(s, i), [i] + free, n)
  {
    assert i !in free;
    LinksKept(s.bufctl, Pushed(s, i).bufctl, s.freeHead, free);
    assert ([i] + free)[1..] == free;
    HeadIndex(s, free, n);
  }

  /** A free-list head is an index or the end mark, never the busy mark. */
  lemma HeadIndex(s: Slab, free: seq<nat>, n: nat)
    requires SlabOk(s, free, n)
    ensures s.freeHead != BUSY
  {
    assert free != [] ==> free[0] in free;
  }

  ghost function Run(i: nat, n: nat): seq<nat>
    requires i <= n
    decreases n - i
  {
    if i == n then [] else [i] + Run(i + 1, n)
  }

  lemma {:induction false} RunIs(i: nat, n: nat)
    requires i <= n
    ensures |Run(i, n)| == n - i && Distinct(Run(i, n)) && forall x: nat :: x in Run(i, n) <==> i <= x < n
    decreases n - i
  {
    if i < n {
      RunIs(i + 1, n);
      DistinctCons(i, Run(i + 1, n));
    }
  }

  lemma RunStep(i: nat, n: nat)
    requires i < n
    ensures Run(i, n) != [] && Run(i, n)[0] == i && Run(i, n)[1..] == Run(i + 1, n)
  {
  }

  lemma {:induction false} CarvedLinked(b: seq<nat>, n: nat, i: nat)
    requires |b| == n && i <= n && forall k | 0 <= k < n :: b[k] == if k + 1 < n then k + 1 else END
    ensures Links(b, if i < n then i else END, Run(i, n))
    decreases n - i
  {
    if i < n {
      CarvedLinked(b, n, i + 1);
      RunStep(i, n);
      hide Run;
    }
  }

  // ----- the cache's slabs -----

  /** Every slab's free list is in order, and `out` is exactly the set of objects on none of them. */
  ghost predicate SlabsOk(slabs: map<nat, Slab>, free: map<nat, seq<nat>>, n: nat, out: set<Object>) {
    && free.Keys == slabs.Keys
    && (forall s | s in slabs :: SlabOk(slabs[s], free[s], n))
    && (forall o :: o in out <==> IsBusy(slabs, o))
  }

  ghost predicate IsBusy(slabs: map<nat, Slab>, o: Object) {
    o.slab in slabs && o.index < |slabs[o.slab].bufctl| && slabs[o.slab].bufctl[o.index] == BUSY
  }

  lemma PopSlab(slabs: map<nat, Slab>, free: map<nat, seq<nat>>, n: nat, out: set<Object>, s: nat)
    requires SlabsOk(slabs, free, n, out) && s in slabs && slabs[s].freeCount > 0
    ensures slabs[s].freeHead < |slabs[s].bufctl| && free[s] != [] && Object(s, slabs[s].freeHead) !in out
    ensures SlabsOk(slabs[s := Popped(slabs[s])], free[s := free[s][1..]], n, out + {Object(s, slabs[s].freeHead)})
  {
    hide SlabOk;
    SlabCounts(slabs[s], free[s], n);
    PopOk(slabs[s], free[s], n);
  }

  lemma SlabCounts(s: Slab, free: seq<nat>, n: nat)
    requires SlabOk(s, free, n)
    ensures |s.bufctl| == n <= MAX_OBJECTS && s.freeCount == |free|
  {
  }

  lemma PushSlab(slabs: map<nat, Slab>, free: map<nat, seq<nat>>, n: nat, out: set<Object>, o: Object)
    requires SlabsOk(slabs, free, n, out) && o in out
    ensures o.slab in slabs && o.index < |slabs[o.slab].bufctl|
    ensures SlabsOk(slabs[o.slab := Pushed(slabs[o.slab], o.index)], free[o.slab := [o.index] + free[o.slab]], n,
            out - {o})
  {
    hide SlabOk;
    var s := o.slab;
    SlabCounts(slabs[s], free[s], n);
    HeadIndex(slabs[s], free[s], n);
    PushOk(slabs[s], free[s], n, o.index);
  }

  lemma AddSlab(slabs: map<nat, Slab>, free: map<nat, seq<nat>>, n: nat, out: set<Object>, s: nat, slab: Slab)
    requires SlabsOk(slabs, free, n, out) && s !in slabs && SlabOk(slab, Run(0, n), n)
    ensures SlabsOk(slabs[s := slab], free[s := Run(0, n)], n, out)
  {
    RunIs(0, n);
  }

  /** A slab with every object free can go: nobody has anything of it. */
  lemma DropSlab(slabs: map<nat, Slab>, free: map<nat, seq<nat>>, n: nat, out: set<Object>, s: nat)
    requires SlabsOk(slabs, free, n, out) && s in slabs && slabs[s].freeCount == n
    ensures SlabsOk(slabs - {s}, free - {s}, n, out) && forall o | o in out :: o.slab != s
  {
    AllFree(slabs[s], free[s], n);
  }

  lemma AllFree(s: Slab, free: seq<nat>, n: nat)
    requires SlabOk(s, free, n) && s.freeCount == n
    ensures forall i | 0 <= i < n :: s.bufctl[i] != BUSY
  {
    RunIs(0, n);
    var have := set i | i in free;
    var all := set i | i in Run(0, n);
    DistinctCount(free, have);
    DistinctCount(Run(0, n), all);
    assert have <= all;
    if have != all {
      Proper(have, all);
    }
    forall i | 0 <= i < n ensures s.bufctl[i] != BUSY {
      assert i in all;
    }
  }

  lemma Proper(s: set<nat>, t: set<nat>)
    requires s < t
    ensures |s| < |t|
  {
    var x :| x in t && x !in s;
    assert t == s + {x} + (t - s - {x});
    assert |s + {x}| == |s| + 1;
  }

  // ----- the cache's lists -----

  /** The list a slab belongs on. */
  function KindFor(s: Slab, n: nat): ListKind {
    if s.freeCount == 0 then Full else if s.freeCount == n then Empty else Partial
  }

  ghost predicate Listed(slabs: map<nat, Slab>, list: seq<nat>, kind: ListKind) {
    Distinct(list) && forall s :: s in list <==> s in slabs && slabs[s].list == kind
  }

  /** Every slab is on the list it names, and all but `but` name the right one. */
  ghost predicate HomesBut(slabs: map<nat, Slab>, n: nat, partial: seq<nat>, full: seq<nat>, empty: seq<nat>,
      but: set<nat>) {
    && Listed(slabs, partial, Partial) && Listed(slabs, full, Full) && Listed(slabs, empty, Empty)
    && (forall s | s in slabs :: slabs[s].list != NoList)
    && forall s | s in slabs && s !in but :: slabs[s].list == KindFor(slabs[s], n)
  }

  lemma ListedMove(slabs: map<nat, Slab>, list: seq<nat>, kind: ListKind, s: nat, want: ListKind)
    requires Listed(slabs, list, kind) && s in slabs && slabs[s].list != want
    ensures Listed(slabs[s := slabs[s].(list := want)], if kind == want then [s] + list
            else if kind == slabs[s].list then Without(list, s) else list, kind)
  {
    hide Without;
    WithoutOne(list, s);
    if kind == want {
      DistinctCons(s, list);
    }
  }
}
