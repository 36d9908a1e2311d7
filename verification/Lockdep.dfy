/** The lock validator's core: classes, the order graph with its search, the held-lock stack, and the
    checks and commits made at each acquire and release. */
module Lockdep {
  import opened LockOrder
  import opened Sequences

  const MAX_CLASSES := 256
  const MAX_EDGES := 512
  const MAX_HELD := 16
  const MAX_PATH := 16

  datatype Verdict =
    | Ok | Inversion | Recursion | IrqInconsistent | NotHeld | HeldOverflow | BadInit | Full

  /** A class is known by its key; the flags say in which contexts its locks were taken. */
  datatype LockClass = LockClass(key: nat, inHardIrq: bool, irqsOn: bool)

  datatype Held = Held(instance: nat, classId: nat, irqCtx: bool, trylock: bool, irqsOn: bool)

  datatype Finding = Finding(heldClass: nat, heldIndex: nat, sameInstance: bool, path: seq<nat>, truncated: bool)

  predicate InTable(x: nat) {
    1 <= x <= MAX_CLASSES
  }

  // ----- the breadth-first search tree -----

  /** The parent of every queued class but the first is an earlier one with an edge to it. */
  ghost predicate HasParent(g: set<Edge>, q: seq<nat>, parent: seq<nat>, i: nat)
    requires i < |q| && |parent| == MAX_CLASSES
  {
    InTable(q[i]) && exists k: nat | k < i :: q[k] == parent[q[i] - 1] && (q[k], q[i]) in g
  }

  ghost predicate Tree(g: set<Edge>, src: nat, q: seq<nat>, parent: seq<nat>) {
    && |parent| == MAX_CLASSES
    && q != [] && q[0] == src
    && Distinct(q)
    && (forall k | 0 <= k < |q| :: InTable(q[k]))
    && (forall i | 0 < i < |q| :: HasParent(g, q, parent, i))
  }

  lemma TreeStart(g: set<Edge>, src: nat, parent: seq<nat>)
    requires InTable(src) && |parent| == MAX_CLASSES
    ensures Tree(g, src, [src], parent)
  {
  }

  lemma TreeGrow(g: set<Edge>, src: nat, q: seq<nat>, parent: seq<nat>, at: nat, next: nat)
    requires Tree(g, src, q, parent) && at < |q| && InTable(next) && next !in q && (q[at], next) in g
    ensures Tree(g, src, q + [next], parent[next - 1 := q[at]])
  {
    var q', parent' := q + [next], parent[next - 1 := q[at]];
    forall i | 0 < i < |q'| ensures HasParent(g, q', parent', i) {
      if i < |q| {
        assert HasParent(g, q, parent, i);
        var k: nat :| k < i && q[k] == parent[q[i] - 1] && (q[k], q[i]) in g;
        assert q'[k] == parent'[q'[i] - 1];
      } else {
        assert q'[at] == parent'[q'[i] - 1];
      }
    }
  }

  lemma {:induction false} TreeReaches(g: set<Edge>, src: nat, q: seq<nat>, parent: seq<nat>, i: nat)
    requires Tree(g, src, q, parent) && i < |q|
    ensures Reach(g, src, q[i])
    decreases i
  {
    if i == 0 {
      ReachSelf(g, src);
    } else {
      assert HasParent(g, q, parent, i);
      var k: nat :| k < i && q[k] == parent[q[i] - 1] && (q[k], q[i]) in g;
      TreeReaches(g, src, q, parent, k);
      ReachEdge(g, q[k], q[i]);
      ReachTrans(g, src, q[k], q[i]);
    }
  }

  /** Each class is queued at most once, so the queue fits the table. */
  lemma TreeFits(g: set<Edge>, src: nat, q: seq<nat>, parent: seq<nat>)
    requires Tree(g, src, q, parent)
    ensures |q| <= MAX_CLASSES && forall k | 0 <= k < |q| :: InTable(q[k])
  {
    DistinctFits(q, MAX_CLASSES);
  }

  // ----- the held stack and the verdict -----

  /** Index of the lowest entry of the topmost run taken in the same context. */
  function SegmentBase(held: seq<Held>, irqCtx: bool): (b: nat)
    ensures b <= |held| && (forall i | b <= i < |held| :: held[i].irqCtx == irqCtx)
    ensures b > 0 ==> held[b - 1].irqCtx != irqCtx
  {
    if held != [] && held[|held| - 1].irqCtx == irqCtx then SegmentBase(held[..|held| - 1], irqCtx) else |held|
  }

  ghost predicate HoldsInstance(held: seq<Held>, instance: nat) {
    exists i | 0 <= i < |held| :: held[i].instance == instance
  }

  ghost predicate HoldsClass(held: seq<Held>, irqCtx: bool, classId: nat) {
    exists i | SegmentBase(held, irqCtx) <= i < |held| :: held[i].classId == classId
  }

  /** Taking `classId` now would close a cycle with held entry `i`. */
  ghost predicate Inverts(g: set<Edge>, held: seq<Held>, classId: nat, i: nat)
    requires i < |held|
  {
    held[i].classId != classId && (held[i].classId, classId) !in g && Reach(g, classId, held[i].classId)
  }

  ghost predicate AnyInversion(g: set<Edge>, held: seq<Held>, irqCtx: bool, classId: nat) {
    exists i | SegmentBase(held, irqCtx) <= i < |held| :: Inverts(g, held, classId, i)
  }

  /** The first finding, in the order the checks are documented. */
  ghost function AcquireVerdict(
    g: set<Edge>, cls: LockClass, held: seq<Held>, instance: nat, classId: nat, irqCtx: bool, irqsOn: bool,
      trylock: bool
  ): Verdict
  {
    if |held| >= MAX_HELD then HeldOverflow
    else if HoldsInstance(held, instance) then Recursion
    else if !trylock && HoldsClass(held, irqCtx, classId) then Recursion
    else if irqCtx && cls.irqsOn then IrqInconsistent
    else if !irqCtx && irqsOn && cls.inHardIrq then IrqInconsistent
    else if !trylock && AnyInversion(g, held, irqCtx, classId) then Inversion
    else Ok
  }

  /** Of a lock taken with interrupts off that is still held when they are on again. */
  function ReleaseVerdict(cls: LockClass, h: Held, irqsOn: bool): Verdict {
    if !h.irqCtx && !h.irqsOn && irqsOn && cls.inHardIrq then IrqInconsistent else Ok
  }

  /** The order edges an acquire of `classId` asks for. */
  ghost function OrderEdges(held: seq<Held>, irqCtx: bool, classId: nat): set<Edge> {
    set i | SegmentBase(held, irqCtx) <= i < |held| && held[i].classId != classId :: (held[i].classId, classId)
  }

  /** A reported chain: real consecutive edges ending at `dst`, starting at `src` unless cut. */
  ghost predicate Chain(g: set<Edge>, src: nat, dst: nat, path: seq<nat>, truncated: bool) {
    && IsPath(g, path) && |path| <= MAX_PATH + 1 && path[|path| - 1] == dst
    && (truncated ==> |path| == MAX_PATH + 1)
    && (!truncated ==> path[0] == src)
  }

  class LockdepGraph {
    var classes: seq<LockClass>
    var edges: seq<Edge>
    const adj: array2<bool>
    const bfsQueue: array<nat>
    const bfsParent: array<nat>
    const bfsSeen: array<bool>

    ghost predicate Shape() {
      && adj.Length0 == MAX_CLASSES && adj.Length1 == MAX_CLASSES
      && bfsQueue.Length == MAX_CLASSES && bfsParent.Length == MAX_CLASSES && bfsSeen.Length == MAX_CLASSES
      && bfsQueue != bfsParent
    }

    /** The order relation the adjacency bits describe. */
    ghost function Order(): (g: set<Edge>)
      requires Shape()
      reads adj
      ensures forall a: nat, b: nat :: (a, b) in g <==> InTable(a) && InTable(b) && adj[a - 1, b - 1]
    {
      set a: nat, b: nat | a <= MAX_CLASSES && b <= MAX_CLASSES && InTable(a) && InTable(b) && adj[a - 1, b - 1] ::
        (a, b)
    }

    /** Edge table and adjacency bits describe the same relation, without duplicates. */
    ghost predicate Valid()
      reads this, adj
      ensures Valid() ==> Shape()
    {
      && Shape()
      && |classes| <= MAX_CLASSES && |edges| <= MAX_EDGES
      && (forall i, j | 0 <= i < j < |edges| :: edges[i] != edges[j])
      && (forall i | 0 <= i < |edges| :: edges[i] in Order())
      && (forall e | e in Order() :: e in edges && e.0 <= |classes| && e.1 <= |classes|)
      && (forall i, j | 0 <= i < j < |classes| :: classes[i].key != classes[j].key)
    }

    constructor ()
      ensures Valid() && Order() == {} && classes == [] && fresh(adj)
      ensures fresh(bfsQueue) && fresh(bfsParent) && fresh(bfsSeen)
    {
      classes, edges := [], [];
      adj := new bool[MAX_CLASSES, MAX_CLASSES]((_, _) => false);
      bfsQueue := new nat[MAX_CLASSES](_ => 0);
      bfsParent := new nat[MAX_CLASSES](_ => 0);
      bfsSeen := new bool[MAX_CLASSES](_ => false);
    }

    /** Finds or registers the class of `key`; 0 stands for a missing key or name. */
    method ClassOf(key: nat, name: nat) returns (v: Verdict, id: nat)
      requires Valid()
      modifies this
      ensures Valid() && edges == old(edges)
      ensures v == BadInit <==> key == 0 || name == 0
      ensures v == Full <==> key != 0 && name != 0 && |old(classes)| == MAX_CLASSES
                             && forall c | c in old(classes) :: c.key != key
      ensures v == BadInit || v == Full || v == Ok
      ensures v == Ok ==> 1 <= id <= |classes| && classes[id - 1].key == key
      ensures classes == old(classes) || (v == Ok && classes == old(classes) + [LockClass(key, false, false)])
    {
      id := 0;
      if key == 0 || name == 0 {
        return BadInit, 0;
      }
      for i := 0 to |classes|
        invariant forall k | 0 <= k < i :: classes[k].key != key
      {
        if classes[i].key == key {
          return Ok, i + 1;
        }
      }
      if |classes| == MAX_CLASSES {
        return Full, 0;
      }
      classes := classes + [LockClass(key, false, false)];
      return Ok, |classes|;
    }

    /** The index of the edge, or -1. */
    method EdgeFind(from: nat, to: nat) returns (at: int)
      requires Valid()
      ensures (at >= 0) == ((from, to) in Order())
      ensures at >= 0 ==> at < |edges| && edges[at] == (from, to)
    {
      for i := 0 to |edges|
        invariant forall k | 0 <= k < i :: edges[k] != (from, to)
      {
        if edges[i] == (from, to) {
          return i;
        }
      }
      return -1;
    }

    method HasEdge(from: nat, to: nat) returns (b: bool)
      requires Valid()
      ensures b == ((from, to) in Order())
    {
      if from == 0 || to == 0 || from > |classes| || to > |classes| {
        return false;
      }
      return adj[from - 1, to - 1];
    }

    /** Queues every unseen successor of the class at the head, in ascending order. */
    method Expand(ghost g: set<Edge>, src: nat, head: nat, tail0: nat) returns (tail: nat)
      requires Shape() && g == Order() && head < tail0 <= MAX_CLASSES
      requires Tree(g, src, bfsQueue[..tail0], bfsParent[..])
      requires forall x: nat | InTable(x) :: bfsSeen[x - 1] <==> x in bfsQueue[..tail0]
      modifies bfsQueue, bfsParent, bfsSeen
      ensures tail0 <= tail <= MAX_CLASSES && bfsQueue[..tail0] == old(bfsQueue[..tail0])
      ensures Tree(g, src, bfsQueue[..tail], bfsParent[..])
      ensures forall x: nat | InTable(x) :: bfsSeen[x - 1] <==> x in bfsQueue[..tail]
      ensures forall y: nat | (bfsQueue[head], y) in g :: y in bfsQueue[..tail]
    {
      hide Tree;
      tail := tail0;
      var cur := bfsQueue[head];
      TreeFits(g, src, bfsQueue[..tail], bfsParent[..]);
      assert bfsQueue[..tail][head] == cur;
      for next := 1 to MAX_CLASSES + 1
        invariant tail0 <= tail <= MAX_CLASSES && bfsQueue[..tail0] == old(bfsQueue[..tail0])
        invariant bfsQueue[head] == cur
        invariant Tree(g, src, bfsQueue[..tail], bfsParent[..])
        invariant forall x: nat | InTable(x) :: bfsSeen[x - 1] <==> x in bfsQueue[..tail]
        invariant forall y: nat | y < next && (cur, y) in g :: y in bfsQueue[..tail]
      {
        if adj[cur - 1, next - 1] && !bfsSeen[next - 1] {
          ghost var q := bfsQueue[..tail];
          TreeGrow(g, src, q, bfsParent[..], head, next);
          TreeFits(g, src, q + [next], bfsParent[..][next - 1 := cur]);
          bfsSeen[next - 1] := true;
          bfsParent[next - 1] := cur;
          bfsQueue[tail] := next;
          tail := tail + 1;
          assert bfsQueue[..tail] == q + [next];
        }
      }
    }

    /** Marks every class unseen and queues `src`. */
    method StartSearch(src: nat)
      requires Valid() && InTable(src)
      modifies bfsQueue, bfsParent, bfsSeen
      ensures bfsQueue[0] == src && Tree(Order(), src, bfsQueue[..1], bfsParent[..])
      ensures forall x: nat | InTable(x) :: bfsSeen[x - 1] <==> x in bfsQueue[..1]
    {
      hide Tree;
      for i := 0 to MAX_CLASSES
        invariant forall k | 0 <= k < i :: !bfsSeen[k]
      {
        bfsSeen[i] := false;
      }
      bfsQueue[0] := src;
      bfsParent[src - 1] := 0;
      bfsSeen[src - 1] := true;
      assert bfsQueue[..1] == [src];
      TreeStart(Order(), src, bfsParent[..]);
    }

    /** True exactly when some chain of edges leads from `src` to `dst`. */
    method BfsFind(src: nat, dst: nat) returns (found: bool, ghost q: seq<nat>)
      requires Valid() && InTable(src)
      modifies bfsQueue, bfsParent, bfsSeen
      ensures found == Reach(Order(), src, dst)
      ensures found ==> Tree(Order(), src, q, bfsParent[..]) && dst in q
    {
      hide Tree;
      ghost var g := Order();
      StartSearch(src);
      var head, tail := 0, 1;
      while head < tail
        invariant 0 <= head <= tail <= MAX_CLASSES
        invariant Tree(g, src, bfsQueue[..tail], bfsParent[..]) && bfsQueue[0] == src
        invariant forall x: nat | InTable(x) :: bfsSeen[x - 1] <==> x in bfsQueue[..tail]
        invariant Expanded(g, bfsQueue[..tail], head)
        invariant dst !in bfsQueue[..head]
        decreases MAX_CLASSES - head
      {
        var cur := bfsQueue[head];
        if cur == dst {
          TreeReaches(g, src, bfsQueue[..tail], bfsParent[..], head);
          return true, bfsQueue[..tail];
        }
        ghost var before := bfsQueue[..tail];
        tail := Expand(g, src, head, tail);
        head := head + 1;
        assert bfsQueue[..tail][..|before|] == before;
        ExpandedStep(g, before, bfsQueue[..tail], head - 1);
        assert bfsQueue[..head] == bfsQueue[..head - 1] + [cur];
        assert before[..head - 1] == bfsQueue[..head - 1];
      }
      q := [];
      found := false;
      if Reach(g, src, dst) {
        SearchedAll(g, bfsQueue[..tail], src, dst);
      }
    }

    /** Walks the parents back from `dst`, keeping the last MAX_PATH edges. */
    method BuildPath(src: nat, dst: nat, ghost q: seq<nat>) returns (path: seq<nat>, truncated: bool)
      requires Valid() && Tree(Order(), src, q, bfsParent[..]) && dst in q
      ensures Chain(Order(), src, dst, path, truncated)
    {
      hide Tree;
      ghost var g := Order();
      ghost var at: nat :| at < |q| && q[at] == dst;
      var x := dst;
      path, truncated := [dst], false;
      while x != src
        invariant at < |q| && q[at] == x
        invariant IsPath(g, path) && |path| <= MAX_PATH + 1 && path[|path| - 1] == dst
        invariant truncated ==> |path| == MAX_PATH + 1
        invariant !truncated ==> path[0] == x
        decreases at
      {
        ghost var k := ParentOf(g, src, q, bfsParent[..], at);
        x := bfsParent[x - 1];
        at := k;
        if |path| < MAX_PATH + 1 {
          ghost var old' := path;
          path := [x] + path;
          PathCons(g, x, old');
        } else {
          truncated := true;
        }
      }
    }

    /** Some nonempty chain of edges leads from one class to another. */
    method DependsOn(from: nat, to: nat) returns (b: bool)
      requires Valid()
      modifies bfsQueue, bfsParent, bfsSeen
      ensures b == (1 <= from <= |classes| && 1 <= to <= |classes| && from != to && Reach(Order(), from, to))
    {
      if from == 0 || to == 0 || from > |classes| || to > |classes| || from == to {
        return false;
      }
      ghost var q;
      b, q := BfsFind(from, to);
    }

    /** Looks for an inversion among the held entries of the segment. */
    method FindInversion(hs: seq<Held>, segment: nat, classId: nat) returns (found: bool, f: Finding)
      requires Valid() && InTable(classId) && segment <= |hs|
      requires forall i | 0 <= i < |hs| :: InTable(hs[i].classId)
      modifies bfsQueue, bfsParent, bfsSeen
      ensures found <==> exists i | segment <= i < |hs| :: Inverts(Order(), hs, classId, i)
      ensures found ==>
                && segment <= f.heldIndex < |hs| && f.heldClass == hs[f.heldIndex].classId
                && Inverts(Order(), hs, classId, f.heldIndex)
                && Chain(Order(), classId, f.heldClass, f.path, f.truncated)
    {
      hide Tree, Chain, Valid;
      f := Finding(0, 0, false, [], false);
      for i := segment to |hs|
        invariant Valid()
        invariant forall k | segment <= k < i :: !Inverts(Order(), hs, classId, k)
      {
        var h := hs[i].classId;
        var edge := Adjacent(h, classId);
        if !(h == classId || edge) {
          ghost var q;
          found, q := BfsFind(classId, h);
          if found {
            var path, truncated := BuildPath(classId, h, q);
            f := Finding(h, i, false, path, truncated);
            assert Inverts(Order(), hs, classId, i);
            return;
          }
        }
      }
      found := false;
    }

    method Adjacent(from: nat, to: nat) returns (b: bool)
      requires Valid() && InTable(from) && InTable(to)
      ensures b == ((from, to) in Order())
    {
      b := adj[from - 1, to - 1];
    }

    /** The checks of an acquire; only the search scratch changes. */
    method CheckAcquire(hs: seq<Held>, instance: nat, classId: nat, irqCtx: bool, irqsOn: bool, trylock: bool)
      returns (v: Verdict, f: Finding)
      requires Valid() && 1 <= classId <= |classes|
      requires forall i | 0 <= i < |hs| :: InTable(hs[i].classId)
      modifies bfsQueue, bfsParent, bfsSeen
      ensures v == AcquireVerdict(Order(), classes[classId - 1], hs, instance, classId, irqCtx, irqsOn, trylock)
      ensures v == Recursion ==>
                f.heldIndex < |hs| && if f.sameInstance then hs[f.heldIndex].instance == instance
                                      else hs[f.heldIndex].classId == classId
      ensures v == Inversion ==>
                && SegmentBase(hs, irqCtx) <= f.heldIndex < |hs| && f.heldClass == hs[f.heldIndex].classId
                && Inverts(Order(), hs, classId, f.heldIndex)
                && Chain(Order(), classId, f.heldClass, f.path, f.truncated)
    {
      hide Chain, Inverts;
      f := Finding(0, 0, false, [], false);
      if |hs| >= MAX_HELD {
        return HeldOverflow, f;
      }
      for i := 0 to |hs|
        invariant forall k | 0 <= k < i :: hs[k].instance != instance
      {
        if hs[i].instance == instance {
          return Recursion, Finding(classId, i, true, [], false);
        }
      }
      var segment := FindSegment(hs, irqCtx);
      if !trylock {
        for i := segment to |hs|
          invariant forall k | segment <= k < i :: hs[k].classId != classId
        {
          if hs[i].classId == classId {
            return Recursion, Finding(classId, i, false, [], false);
          }
        }
      }
      var cls := classes[classId - 1];
      if irqCtx && cls.irqsOn {
        return IrqInconsistent, f;
      }
      if !irqCtx && irqsOn && cls.inHardIrq {
        return IrqInconsistent, f;
      }
      if !trylock {
        var found;
        found, f := FindInversion(hs, segment, classId);
        if found {
          return Inversion, f;
        }
      }
      return Ok, f;
    }

    /** Records that the class was seen in a context. */
    method MarkUsage(classId: nat, hardIrq: bool)
      requires Valid() && 1 <= classId <= |classes|
      modifies this`classes
      ensures Valid() && |classes| == |old(classes)|
      ensures classes == old(classes)[classId - 1 := Marked(old(classes)[classId - 1], hardIrq)]
    {
      var c := classes[classId - 1];
      classes := classes[classId - 1 := if hardIrq then c.(inHardIrq := true) else c.(irqsOn := true)];
    }

    /** Adds one edge to the table and its bit to the matrix. */
    method AddEdge(from: nat, to: nat)
      requires Valid() && 1 <= from <= |classes| && 1 <= to <= |classes|
      requires (from, to) !in Order() && |edges| < MAX_EDGES
      modifies this`edges, adj
      ensures Valid() && Order() == old(Order()) + {(from, to)} && edges == old(edges) + [(from, to)]
    {
      ghost var g := Order();
      edges := edges + [(from, to)];
      adj[from - 1, to - 1] := true;
      assert Order() == g + {(from, to)};
      assert forall e | e in g :: e in old(edges) && e in edges;
    }

    /** Records an acquire: usage, order edges unless withheld, the held entry. */
    method CommitAcquire(
      hs: HeldStack, instance: nat, classId: nat, irqCtx: bool, irqsOn: bool, trylock: bool, addEdges: bool)
      returns (v: Verdict)
      requires Valid() && 1 <= classId <= |classes| && hs.Valid(|classes|)
      modifies this, adj, hs
      ensures Valid() && hs.Valid(|classes|) && |classes| == |old(classes)|
      ensures v == Ok || v == Full
      ensures v == Ok ==>
                Order() == old(Order()) + if trylock || !addEdges then {} else OrderEdges(old(hs.held), irqCtx, classId)
      ensures v == Full ==>
                && !trylock && addEdges && |edges| == MAX_EDGES
                && old(Order()) <= Order() < old(Order()) + OrderEdges(old(hs.held), irqCtx, classId)
      ensures classes == if irqCtx || irqsOn
                         then old(classes)[classId - 1 := Marked(old(classes)[classId - 1], irqCtx)] else old(classes)
      ensures hs.held == if |old(hs.held)| < MAX_HELD
                         then old(hs.held) + [Held(instance, classId, irqCtx, trylock, irqsOn)] else old(hs.held)
    {
      hide Valid, OrderEdges, Marked;
      v := Ok;
      if irqCtx {
        MarkUsage(classId, true);
      } else if irqsOn {
        MarkUsage(classId, false);
      }
      if !trylock && addEdges {
        v := AddOrderEdges(hs, classId, irqCtx);
      }
      if |hs.held| < MAX_HELD {
        hs.held := hs.held + [Held(instance, classId, irqCtx, trylock, irqsOn)];
      }
    }

    method AddOrderEdges(hs: HeldStack, classId: nat, irqCtx: bool) returns (v: Verdict)
      requires Valid() && 1 <= classId <= |classes| && hs.Valid(|classes|)
      modifies this`edges, adj
      ensures Valid() && (v == Ok || v == Full)
      ensures v == Ok ==> Order() == old(Order()) + OrderEdges(hs.held, irqCtx, classId)
      ensures v == Full ==>
                |edges| == MAX_EDGES && old(Order()) <= Order() < old(Order()) + OrderEdges(hs.held, irqCtx, classId)
    {
      hide Valid, Order, OrderEdges, EdgesUpTo, SegmentBase, HeldStack.Valid;
      v := Ok;
      ghost var g := Order();
      var segment := FindSegment(hs.held, irqCtx);
      NoEdgesYet(hs.held, segment, classId);
      for i := segment to |hs.held|
        invariant Valid() && (v == Ok || v == Full)
        invariant g <= Order() <= g + EdgesUpTo(hs.held, segment, i, classId)
        invariant v == Ok ==> Order() == g + EdgesUpTo(hs.held, segment, i, classId)
        invariant v == Full ==> |edges| == MAX_EDGES && exists e ::
                  e in EdgesUpTo(hs.held, segment, i, classId) && e !in Order()
      {
        var h := hs.held[i].classId;
        EdgesUpToStep(hs.held, segment, i, classId);
        InRangeEdge(hs, i);
        var edge := Adjacent(h, classId);
        if !(h == classId || edge) {
          if |edges| == MAX_EDGES {
            v := Full;
          } else {
            EdgeRoom();
            AddEdge(h, classId);
          }
        }
      }
      EdgesUpToAll(hs.held, irqCtx, classId);
    }

    lemma EdgeRoom()
      requires Valid()
      ensures |edges| <= MAX_EDGES
    {
    }

    lemma InRangeEdge(hs: HeldStack, i: nat)
      requires Valid() && hs.Valid(|classes|) && i < |hs.held|
      ensures InTable(hs.held[i].classId) && 1 <= hs.held[i].classId <= |classes| <= MAX_CLASSES
    {
    }

    /** What the kernel runs before every spin and after every successful try: check, report, and commit
        with the order edges withheld after a report. */
    method Acquire(hs: HeldStack, instance: nat, classId: nat, irqCtx: bool, irqsOn: bool, trylock: bool)
      returns (v: Verdict, disable: bool)
      requires Valid() && 1 <= classId <= |classes| && hs.Valid(|classes|)
      modifies this, adj, bfsQueue, bfsParent, bfsSeen, hs
      ensures Valid() && hs.Valid(|classes|) && |classes| == |old(classes)|
      ensures v == AcquireVerdict(
                old(Order()), old(classes)[classId - 1], old(hs.held), instance, classId, irqCtx, irqsOn, trylock)
      ensures !disable ==>
                Order() == old(Order()) + if trylock || v != Ok then {} else OrderEdges(old(hs.held), irqCtx, classId)
      ensures disable ==> v == Ok && !trylock && |edges| == MAX_EDGES
      ensures old(Acyclic(Order())) ==> Acyclic(Order())
      ensures hs.held == if v == HeldOverflow then old(hs.held)
                         else old(hs.held) + [Held(instance, classId, irqCtx, trylock, irqsOn)]
      ensures classes == if irqCtx || irqsOn
                         then old(classes)[classId - 1 := Marked(old(classes)[classId - 1], irqCtx)] else old(classes)
    {
      hide Valid, OrderEdges, Acyclic, HoldsInstance, HoldsClass, AnyInversion;
      TablesFit(hs);
      ghost var g, cls, held := Order(), classes[classId - 1], hs.held;
      var f;
      v, f := CheckAcquire(hs.held, instance, classId, irqCtx, irqsOn, trylock);
      var w := CommitAcquire(hs, instance, classId, irqCtx, irqsOn, trylock, v == Ok);
      disable := w == Full;
      if Acyclic(g) && !trylock && v == Ok {
        CommitKeepsAcyclic(g, cls, held, instance, classId, irqCtx, irqsOn, Order());
      } else if trylock || v != Ok {
        assert Order() == g;
      }
    }

    lemma TablesFit(hs: HeldStack)
      requires Valid() && hs.Valid(|classes|)
      ensures |hs.held| <= MAX_HELD && |classes| <= MAX_CLASSES
      ensures forall i | 0 <= i < |hs.held| :: InTable(hs.held[i].classId)
    {
    }

    /** The checks of a release. */
    method CheckRelease(hs: seq<Held>, instance: nat, irqsOn: bool) returns (v: Verdict)
      requires Valid() && forall i | 0 <= i < |hs| :: 1 <= hs[i].classId <= |classes|
      ensures (v == NotHeld) == !HoldsInstance(hs, instance)
      ensures v != NotHeld ==>
                var h := hs[Topmost(hs, instance)];
                v == ReleaseVerdict(classes[h.classId - 1], h, irqsOn)
    {
      var idx := HeldFind(hs, instance);
      if idx < 0 {
        return NotHeld;
      }
      var h := hs[idx];
      if !h.irqCtx && !h.irqsOn && irqsOn && classes[h.classId - 1].inHardIrq {
        return IrqInconsistent;
      }
      return Ok;
    }

    /** Records a release: the topmost entry for the lock goes, entries above it shift down. */
    method CommitRelease(hs: HeldStack, instance: nat, irqsOn: bool)
      requires Valid() && hs.Valid(|classes|)
      modifies this`classes, hs
      ensures Valid() && hs.Valid(|classes|) && |classes| == |old(classes)|
      ensures !HoldsInstance(old(hs.held), instance) ==> hs.held == old(hs.held) && classes == old(classes)
      ensures HoldsInstance(old(hs.held), instance) ==>
                var k := Topmost(old(hs.held), instance);
                && hs.held == old(hs.held)[..k] + old(hs.held)[k + 1..]
                && classes == if !old(hs.held)[k].irqCtx && irqsOn
                              then old(classes)[old(hs.held)[k].classId - 1
                                                := Marked(old(classes)[old(hs.held)[k].classId - 1], false)]
                              else old(classes)
    {
      var idx := HeldFind(hs.held, instance);
      if idx < 0 {
        return;
      }
      var h := hs.held[idx];
      if !h.irqCtx && irqsOn {
        MarkUsage(h.classId, false);
      }
      hs.held := hs.held[..idx] + hs.held[idx + 1..];
    }
  }

  class HeldStack {
    var held: seq<Held>

    ghost predicate Valid(classCount: nat)
      reads this
    {
      |held| <= MAX_HELD && forall i | 0 <= i < |held| :: 1 <= held[i].classId <= classCount
    }

    constructor ()
      ensures held == []
    {
      held := [];
    }
  }

  function Marked(c: LockClass, hardIrq: bool): LockClass {
    if hardIrq then c.(inHardIrq := true) else c.(irqsOn := true)
  }

  /** Index of the topmost entry for a held lock. */
  function Topmost(held: seq<Held>, instance: nat): (k: nat)
    requires exists i | 0 <= i < |held| :: held[i].instance == instance
    ensures k < |held| && held[k].instance == instance
    ensures forall j | k < j < |held| :: held[j].instance != instance
  {
    if held[|held| - 1].instance == instance then |held| - 1
    else
      var front := held[..|held| - 1];
      assert exists i | 0 <= i < |front| :: front[i].instance == instance by {
        var i :| 0 <= i < |held| && held[i].instance == instance;
        assert front[i].instance == instance;
      }
      Topmost(front, instance)
  }

  method HeldFind(hs: seq<Held>, instance: nat) returns (at: int)
    ensures (at >= 0) == HoldsInstance(hs, instance)
    ensures at >= 0 ==> at == Topmost(hs, instance)
  {
    var i: nat := |hs|;
    while i > 0
      invariant i <= |hs| && forall k | i <= k < |hs| :: hs[k].instance != instance
    {
      if hs[i - 1].instance == instance {
        return i - 1;
      }
      i := i - 1;
    }
    return -1;
  }

  method FindSegment(hs: seq<Held>, irqCtx: bool) returns (at: nat)
    ensures at == SegmentBase(hs, irqCtx)
  {
    at := |hs|;
    assert hs[..at] == hs;
    while at > 0 && hs[at - 1].irqCtx == irqCtx
      invariant at <= |hs| && SegmentBase(hs, irqCtx) == SegmentBase(hs[..at], irqCtx)
    {
      assert hs[..at][..at - 1] == hs[..at - 1];
      at := at - 1;
    }
  }

  /** The order edges asked for by the held entries from `segment` up to `i`. */
  ghost function EdgesUpTo(held: seq<Held>, segment: nat, i: nat, classId: nat): set<Edge>
    requires i <= |held|
  {
    set k | segment <= k < i && held[k].classId != classId :: (held[k].classId, classId)
  }

  lemma EdgesUpToStep(held: seq<Held>, segment: nat, i: nat, classId: nat)
    requires segment <= i < |held|
    ensures EdgesUpTo(held, segment, i + 1, classId)
         == EdgesUpTo(held, segment, i, classId)
            + if held[i].classId != classId then {(held[i].classId, classId)} else {}
  {
  }

  lemma NoEdgesYet(held: seq<Held>, segment: nat, classId: nat)
    requires segment <= |held|
    ensures EdgesUpTo(held, segment, segment, classId) == {}
  {
  }

  lemma EdgesUpToAll(held: seq<Held>, irqCtx: bool, classId: nat)
    ensures EdgesUpTo(held, SegmentBase(held, irqCtx), |held|, classId) == OrderEdges(held, irqCtx, classId)
  {
  }

  /** Edges committed after a clean check keep the order acyclic, all of them or only some. */
  lemma CommitKeepsAcyclic(
    g: set<Edge>, cls: LockClass, held: seq<Held>, instance: nat, classId: nat, irqCtx: bool, irqsOn: bool,
      g': set<Edge>)
    requires Acyclic(g) && AcquireVerdict(g, cls, held, instance, classId, irqCtx, irqsOn, false) == Ok
    requires g <= g' <= g + OrderEdges(held, irqCtx, classId)
    ensures Acyclic(g')
  {
    var edges := OrderEdges(held, irqCtx, classId);
    var from := set e | e in edges :: e.0;
    forall h | h in from ensures !Reach(g, classId, h) {
      var e :| e in edges && e.0 == h;
      var i :| SegmentBase(held, irqCtx) <= i < |held| && held[i].classId != classId && (held[i].classId, classId) == e;
      assert !Inverts(g, held, classId, i);
    }
    AddEdgesAcyclic(g, from, classId);
    assert g' <= g + set h | h in from :: (h, classId) by {
      forall e | e in g' && e !in g ensures e in set h | h in from :: (h, classId) {
        assert e in edges && e.0 in from && e == (e.0, classId);
      }
    }
    SubsetAcyclic(g', g + set h | h in from :: (h, classId));
  }

  /** Every successor of the first `head` queued classes is queued. */
  ghost predicate Expanded(g: set<Edge>, q: seq<nat>, head: nat) {
    head <= |q| && forall i, y: nat | 0 <= i < head && (q[i], y) in g :: y in q
  }

  lemma ExpandedStep(g: set<Edge>, before: seq<nat>, after: seq<nat>, head: nat)
    requires Expanded(g, before, head) && head < |before| <= |after| && after[..|before|] == before
    requires forall y: nat | (before[head], y) in g :: y in after
    ensures Expanded(g, after, head + 1)
  {
    forall i, y: nat | 0 <= i < head + 1 && (after[i], y) in g ensures y in after {
      assert after[i] == before[i];
      if i < head {
        assert y in before;
        var k :| 0 <= k < |before| && before[k] == y;
        assert after[k] == y;
      }
    }
  }

  lemma SearchedAll(g: set<Edge>, q: seq<nat>, src: nat, dst: nat)
    requires Expanded(g, q, |q|) && src in q && Reach(g, src, dst)
    ensures dst in q
  {
    var all := set x | x in q;
    forall x: nat, y: nat | (x, y) in g && x in all ensures y in all {
      var i :| 0 <= i < |q| && q[i] == x;
      assert (q[i], y) in g;
    }
    ClosedHoldsReachable(g, all, src, dst);
  }

  lemma ParentOf(g: set<Edge>, src: nat, q: seq<nat>, parent: seq<nat>, at: nat) returns (k: nat)
    requires Tree(g, src, q, parent) && at < |q| && q[at] != src
    ensures InTable(q[at]) && k < at && |parent| == MAX_CLASSES && q[k] == parent[q[at] - 1] && (q[k], q[at]) in g
  {
    assert HasParent(g, q, parent, at);
    k :| k < at && q[k] == parent[q[at] - 1] && (q[k], q[at]) in g;
  }

  lemma PathCons(g: set<Edge>, x: nat, p: seq<nat>)
    requires IsPath(g, p) && (x, p[0]) in g
    ensures IsPath(g, [x] + p)
  {
    var r := [x] + p;
    forall i | 0 <= i < |r| - 1 ensures (r[i], r[i + 1]) in g {
      if i > 0 {
        assert (p[i - 1], p[i - 1 + 1]) in g;
      }
    }
  }
}
