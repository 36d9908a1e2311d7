/** The kernel's side of the lock validator: resolving a lock's class, skipping its own locks, switching itself off. */
module Validator {
  import opened LockOrder
  import opened Lockdep
  import opened LockUsage

  /** What a lock carries for the validator. `key` is 0 where the lock's own address stands for its class. */
  class LockMap {
    const address: nat
    const key: nat
    const name: nat
    /** The lock lies in the kernel's data, so that its address is the same for good. */
    const isStatic: bool
    var classId: nat

    constructor (address: nat, key: nat, name: nat, isStatic: bool)
      ensures this.address == address && this.key == key && this.name == name && this.isStatic == isStatic
              && classId == 0
    {
      this.address, this.key, this.name, this.isStatic := address, key, name, isStatic;
      classId := 0;
    }

    ghost predicate BadlyMade()
      reads this
    {
      classId == 0 && ((key == 0 && !isStatic) || name == 0 || ClassKey() == 0)
    }

    function ClassKey(): nat {
      if key != 0 then key else address
    }
  }

  class Kernel {
    const graph: LockdepGraph
    var off: bool
    /** Every CPU's held locks. */
    ghost const stacks: set<HeldStack>
    /** Every acquire and release of a lock whose class is known, up to the time the validator was switched off. */
    ghost var history: seq<Use>

    /** The recorded order is acyclic, and the marks of the classes and the reports made are those the history
        calls for. */
    ghost predicate Valid()
      reads this, graph, graph.adj, stacks
    {
      && graph.Valid() && Acyclic(graph.Order())
      && Told(graph.classes, history) && Exact(history)
      && forall hs | hs in stacks :: hs.Valid(|graph.classes|) && Marks(graph.classes, hs.held)
    }

    /** Either not looked up yet, or a class of the table. */
    ghost predicate Known(m: LockMap)
      reads m, graph
    {
      m.classId <= |graph.classes|
    }

    constructor (stacks: set<HeldStack>)
      requires forall hs | hs in stacks :: hs.held == []
      ensures Valid() && !off && fresh(graph) && graph.classes == [] && graph.Order() == {}
      ensures this.stacks == stacks && history == []
    {
      graph := new LockdepGraph();
      off := false;
      this.stacks := stacks;
      history := [];
    }

    /** The lock's class: remembered, or found or registered by its key. */
    method ResolveClass(m: LockMap) returns (v: Verdict, id: nat)
      requires graph.Valid() && Known(m)
      modifies m`classId, graph
      ensures graph.Valid() && Known(m) && graph.edges == old(graph.edges) && |old(graph.classes)| <= |graph.classes|
      ensures v == Ok || v == BadInit || v == Full
      ensures v == BadInit <==> old(m.BadlyMade())
      ensures v == Full <==> !old(m.BadlyMade()) && old(m.classId) == 0 && |old(graph.classes)| == MAX_CLASSES
                             && forall c | c in old(graph.classes) :: c.key != m.ClassKey()
      ensures v == Ok ==> m.classId == id && 1 <= id <= |graph.classes|
      ensures v == Ok && old(m.classId) != 0 ==> id == old(m.classId)
      ensures v == Ok && old(m.classId) == 0 ==> graph.classes[id - 1].key == m.ClassKey()
      ensures v != Ok || old(m.classId) != 0 ==> m.classId == old(m.classId) && graph.classes == old(graph.classes)
      ensures graph.classes == old(graph.classes) || (v == Ok && graph.classes == old(graph.classes) + [Unused(m)])
    {
      hide graph.Valid;
      if m.classId != 0 {
        return Ok, m.classId;
      }
      id := 0;
      if (m.key == 0 && !m.isStatic) || m.name == 0 {
        return BadInit, id;
      }
      v, id := graph.ClassOf(m.ClassKey(), m.name);
      if v == Ok {
        m.classId := id;
      }
    }

    /** Before every spin, and after every lock a try has won. `own` says that this is the validator's own output. */
    method Acquire(m: LockMap, hs: HeldStack, own: bool, irqCtx: bool, irqsOn: bool, trylock: bool) returns (v: Verdict)
      requires Valid() && Known(m) && hs in stacks
      modifies this`off, this`history, m`classId, graph, graph.adj, graph.bfsQueue, graph.bfsParent, graph.bfsSeen, hs
      ensures Valid() && Known(m) && |old(graph.classes)| <= |graph.classes|
      ensures old(off) || own ==>
                v == Ok && off == old(off) && hs.held == old(hs.held) && graph.classes == old(graph.classes)
                && graph.Order() == old(graph.Order()) && m.classId == old(m.classId) && history == old(history)
      ensures !old(off) && !own && old(m.BadlyMade()) ==>
                v == BadInit && !off && hs.held == old(hs.held) && graph.Order() == old(graph.Order())
      ensures !old(off) && !own && v == Full ==> off && hs.held == old(hs.held) && graph.Order() == old(graph.Order())
      ensures v == BadInit || v == Full ==> history == old(history) && graph.classes == old(graph.classes)
      ensures !old(off) && !own && v != BadInit && v != Full ==>
                && 1 <= m.classId <= |graph.classes|
                && v == AcquireVerdict(old(graph.Order()), ClassBefore(old(graph.classes), m, m.classId),
                                       old(hs.held), m.address, m.classId, irqCtx, irqsOn, trylock)
                && hs.held == (if v == HeldOverflow then old(hs.held)
                               else old(hs.held) + [Held(m.address, m.classId, irqCtx, trylock, irqsOn)])
                && (!off ==> graph.Order() == old(graph.Order())
                                              + if trylock || v != Ok then {}
                                                else OrderEdges(old(hs.held), irqCtx, m.classId))
                && history == old(history) + [Use(m.classId, irqCtx, irqsOn, v)]
    {
      hide graph.Valid, Acyclic, OrderEdges, AcquireVerdict, Told, Exact, Marks, HeldStack.Valid;
      v := Ok;
      if off || own {
        return;
      }
      var id;
      v, id := ResolveClass(m);
      Registered(old(graph.classes), graph.classes, Unused(m), history);
      if v == Full {
        off := true;
      } else if v == Ok {
        var full;
        v, full := AcquireClass(hs, m.address, id, irqCtx, irqsOn, trylock);
        if full {
          off := true;
        }
      }
    }

    /** Check, commit and note of a lock whose class is known. */
    method AcquireClass(hs: HeldStack, address: nat, id: nat, irqCtx: bool, irqsOn: bool, trylock: bool)
      returns (v: Verdict, full: bool)
      requires Valid() && hs in stacks && 1 <= id <= |graph.classes|
      modifies this`history, graph, graph.adj, graph.bfsQueue, graph.bfsParent, graph.bfsSeen, hs
      ensures Valid() && |graph.classes| == |old(graph.classes)|
      ensures v == AcquireVerdict(old(graph.Order()), old(graph.classes)[id - 1], old(hs.held), address, id, irqCtx,
                                  irqsOn, trylock) && v !in {BadInit, Full, NotHeld}
      ensures hs.held == if v == HeldOverflow then old(hs.held)
                         else old(hs.held) + [Held(address, id, irqCtx, trylock, irqsOn)]
      ensures !full ==> graph.Order() == old(graph.Order())
                                         + if trylock || v != Ok then {} else OrderEdges(old(hs.held), irqCtx, id)
      ensures history == old(history) + [Use(id, irqCtx, irqsOn, v)]
    {
      hide graph.Valid, Acyclic, OrderEdges, AcquireVerdict, Told, Exact, Marks, Judged, Marked;
      ghost var classes, cls, held := graph.classes, graph.classes[id - 1], hs.held;
      VerdictKinds(graph.Order(), cls, held, address, id, irqCtx, irqsOn, trylock);
      AcquireJudged(graph.Order(), cls, held, address, id, irqCtx, irqsOn, trylock);
      v, full := graph.Acquire(hs, address, id, irqCtx, irqsOn, trylock);
      ghost var u := Use(id, irqCtx, irqsOn, v);
      ToldStep(classes, history, u);
      ExactStep(classes, history, u);
      Taken(stacks, hs, held, classes, u, address, trylock);
      history := history + [u];
    }

    /** After every raw release. Once the validator is off only the held stack is kept up. */
    method Release(m: LockMap, hs: HeldStack, own: bool, irqsOn: bool) returns (v: Verdict)
      requires Valid() && hs in stacks
      modifies graph`classes, hs, this`history
      ensures Valid() && graph.Order() == old(graph.Order())
      ensures own ==> v == Ok && hs.held == old(hs.held) && graph.classes == old(graph.classes)
      ensures !own && off ==> v == Ok && graph.classes == old(graph.classes)
      ensures !own && !off ==> (v == NotHeld <==> !HoldsInstance(old(hs.held), m.address))
      ensures !own ==> hs.held == if !HoldsInstance(old(hs.held), m.address) then old(hs.held)
                                  else var k := Topmost(old(hs.held), m.address);
                                    old(hs.held)[..k] + old(hs.held)[k + 1..]
      ensures own || off || v == NotHeld ==> history == old(history)
      ensures !own && !off && v != NotHeld ==>
                var h := old(hs.held)[Topmost(old(hs.held), m.address)];
                && 1 <= h.classId <= |old(graph.classes)|
                && v == ReleaseVerdict(old(graph.classes)[h.classId - 1], h, irqsOn)
                && history == old(history) + [Use(h.classId, h.irqCtx, irqsOn, v)]
    {
      hide graph.Valid, Acyclic, Told, Exact, HoldsInstance, Marks, ReleaseVerdict;
      v := Ok;
      if own {
        return;
      }
      if off {
        ghost var held := hs.held;
        graph.CommitRelease(hs, m.address, false);
        if HoldsInstance(held, m.address) {
          MarksDrop(graph.classes, held, Topmost(held, m.address));
        }
        return;
      }
      v := ReleaseClass(hs, m.address, irqsOn);
    }

    /** Check, commit and note of a lock that is held. */
    method ReleaseClass(hs: HeldStack, address: nat, irqsOn: bool) returns (v: Verdict)
      requires Valid() && hs in stacks
      modifies graph`classes, hs, this`history
      ensures Valid() && graph.Order() == old(graph.Order())
      ensures v == NotHeld <==> !HoldsInstance(old(hs.held), address)
      ensures v == NotHeld ==> hs.held == old(hs.held) && history == old(history)
      ensures v != NotHeld ==>
                var k := Topmost(old(hs.held), address);
                var h := old(hs.held)[k];
                && hs.held == old(hs.held)[..k] + old(hs.held)[k + 1..]
                && 1 <= h.classId <= |old(graph.classes)|
                && v == ReleaseVerdict(old(graph.classes)[h.classId - 1], h, irqsOn)
                && history == old(history) + [Use(h.classId, h.irqCtx, irqsOn, v)]
    {
      hide *;
      Parts();
      ghost var classes, held := graph.classes, hs.held;
      InRange(hs, |graph.classes|);
      v := graph.CheckRelease(hs.held, address, irqsOn);
      graph.CommitRelease(hs, address, irqsOn);
      if v != NotHeld {
        ghost var k := Topmost(held, address);
        ghost var u := Use(held[k].classId, held[k].irqCtx, irqsOn, v);
        ReleaseJudged(classes, held, k, irqsOn, v);
        ToldStep(classes, history, u);
        ExactStep(classes, history, u);
        Dropped(stacks, hs, held, classes, u, k);
        history := history + [u];
      }
      Whole();
    }

    lemma Parts()
      requires Valid()
      ensures graph.Valid() && Acyclic(graph.Order()) && Told(graph.classes, history) && Exact(history)
      ensures forall hs | hs in stacks :: hs.Valid(|graph.classes|) && Marks(graph.classes, hs.held)
    {
    }

    lemma Whole()
      requires graph.Valid() && Acyclic(graph.Order()) && Told(graph.classes, history) && Exact(history)
      requires forall hs | hs in stacks :: hs.Valid(|graph.classes|) && Marks(graph.classes, hs.held)
      ensures Valid()
    {
    }
  }

  lemma InRange(hs: HeldStack, n: nat)
    requires hs.Valid(n)
    ensures forall i | 0 <= i < |hs.held| :: 1 <= hs.held[i].classId <= n
  {
  }

  /** A class as it is when a lock is first seen. */
  function Unused(m: LockMap): LockClass {
    LockClass(m.ClassKey(), false, false)
  }

  /** What was known of a class before the call: nothing, if the call registered it. */
  function ClassBefore(classes: seq<LockClass>, m: LockMap, id: nat): LockClass {
    if 1 <= id <= |classes| then classes[id - 1] else Unused(m)
  }

  lemma VerdictKinds(g: set<Edge>, cls: LockClass, held: seq<Held>, instance: nat, id: nat, irqCtx: bool, irqsOn: bool,
      trylock: bool)
    ensures AcquireVerdict(g, cls, held, instance, id, irqCtx, irqsOn, trylock) !in {BadInit, Full, NotHeld}
  {
  }

  /** Registering a class leaves what is known of the others. */
  lemma Registered(was: seq<LockClass>, now: seq<LockClass>, cls: LockClass, h: seq<Use>)
    requires Told(was, h) && (now == was || now == was + [cls]) && !cls.inHardIrq && !cls.irqsOn
    ensures Told(now, h)
    ensures forall held :: Marks(was, held) ==> Marks(now, held)
    ensures forall hs: HeldStack :: hs.Valid(|was|) ==> hs.Valid(|now|)
  {
    if now != was {
      ToldGrows(was, cls, h);
    }
  }

  /** After an acquire every held lock has left its mark, on this stack and on the others. */
  lemma Taken(stacks: set<HeldStack>, hs: HeldStack, held: seq<Held>, classes: seq<LockClass>, u: Use, instance: nat,
      trylock: bool)
    requires 1 <= u.classId <= |classes| && Marks(classes, held)
    requires forall o | o in stacks && o != hs :: Marks(classes, o.held)
    requires hs.held == held || hs.held == held + [Held(instance, u.classId, u.irqCtx, trylock, u.irqsOn)]
    ensures forall o | o in stacks || o == hs :: Marks(Noted(classes, u.classId, u.irqCtx, u.irqsOn), o.held)
  {
    hide Marks, Noted;
    MarksPush(classes, Held(instance, u.classId, u.irqCtx, trylock, u.irqsOn), held);
    MarksStay(classes, u.classId, u.irqCtx, u.irqsOn, held);
    forall o | o in stacks && o != hs ensures Marks(Noted(classes, u.classId, u.irqCtx, u.irqsOn), o.held) {
      MarksStay(classes, u.classId, u.irqCtx, u.irqsOn, o.held);
    }
  }

  lemma Dropped(stacks: set<HeldStack>, hs: HeldStack, held: seq<Held>, classes: seq<LockClass>, u: Use, k: nat)
    requires 1 <= u.classId <= |classes| && Marks(classes, held) && k < |held|
    requires forall o | o in stacks && o != hs :: Marks(classes, o.held)
    requires hs.held == held[..k] + held[k + 1..]
    ensures forall o | o in stacks || o == hs :: Marks(Noted(classes, u.classId, u.irqCtx, u.irqsOn), o.held)
  {
    hide Marks, Noted;
    MarksDrop(classes, held, k);
    MarksStay(classes, u.classId, u.irqCtx, u.irqsOn, hs.held);
    forall o | o in stacks && o != hs ensures Marks(Noted(classes, u.classId, u.irqCtx, u.irqsOn), o.held) {
      MarksStay(classes, u.classId, u.irqCtx, u.irqsOn, o.held);
    }
  }
}
