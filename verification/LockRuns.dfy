/** Any number of CPUs taking and dropping validated spinlocks in process context: every reachable state
    has an acyclic order graph, and hence no circular wait. */
module LockRuns {
  import opened LockOrder
  import opened Lockdep
  import opened Sequences

  // ----- the machine -----

  /** Where a CPU is between the steps of spinLock, spinTryLock and spinUnlock. */
  datatype Mode = Running | Validated(lock: nat) | Spinning(lock: nat) | Released(lock: nat) | TryWon(lock: nat)

  datatype Cpu = Cpu(held: seq<Held>, mode: Mode)

  /** `queues[l]` holds the CPUs with a ticket for lock `l`, the one being served first. */
  datatype State = State(
    order: set<Edge>, classes: seq<LockClass>, classOf: map<nat, nat>, cpus: seq<Cpu>, queues: map<nat, seq<nat>>)

  datatype Action =
    | Validate(cpu: nat, lock: nat, irqsOn: bool)
    | TakeTicket(cpu: nat)
    | Enter(cpu: nat)
    | RawRelease(cpu: nat, lock: nat)
    | ValidateRelease(cpu: nat, irqsOn: bool)
    | TryTake(cpu: nat, lock: nat)
    | ValidateTry(cpu: nat, irqsOn: bool)

  ghost predicate Shaped(s: State) {
    && s.queues.Keys == s.classOf.Keys
    && forall l | l in s.classOf :: 1 <= s.classOf[l] <= |s.classes|
  }

  ghost function Verdict(s: State, c: nat, l: nat, irqsOn: bool, trylock: bool): Lockdep.Verdict
    requires Shaped(s) && c < |s.cpus| && l in s.classOf
  {
    AcquireVerdict(s.order, s.classes[s.classOf[l] - 1], s.cpus[c].held, l, s.classOf[l], false, irqsOn, trylock)
  }

  /** A release the validator does not report. */
  ghost predicate CleanRelease(s: State, held: seq<Held>, l: nat, irqsOn: bool)
    requires HoldsInstance(held, l)
  {
    var h := held[Topmost(held, l)];
    && 1 <= h.classId <= |s.classes|
    && ReleaseVerdict(s.classes[h.classId - 1], h, irqsOn) == Ok
  }

  ghost predicate Enabled(s: State, a: Action)
    requires Shaped(s)
  {
    && a.cpu < |s.cpus|
    && var m := s.cpus[a.cpu].mode;
       match a
       case Validate(c, l, on) => m == Running && l in s.classOf && Verdict(s, c, l, on, false) == Ok
       case TakeTicket(_) => m.Validated? && m.lock in s.queues
       case Enter(c) => m.Spinning? && m.lock in s.queues && s.queues[m.lock] != [] && s.queues[m.lock][0] == c
       case RawRelease(c, l) => m == Running && l in s.queues && s.queues[l] != [] && s.queues[l][0] == c
       case ValidateRelease(c, on) =>
         m.Released? && HoldsInstance(s.cpus[c].held, m.lock) && CleanRelease(s, s.cpus[c].held, m.lock, on)
       case TryTake(_, l) => m == Running && l in s.queues && s.queues[l] == []
       case ValidateTry(c, on) => m.TryWon? && m.lock in s.classOf && Verdict(s, c, m.lock, on, true) == Ok
  }

  function Push(cpu: Cpu, l: nat, cls: nat, trylock: bool, irqsOn: bool, mode: Mode): Cpu {
    Cpu(cpu.held + [Held(l, cls, false, trylock, irqsOn)], mode)
  }

  function MarkIf(classes: seq<LockClass>, cls: nat, irqsOn: bool): (r: seq<LockClass>)
    requires 1 <= cls <= |classes|
    ensures |r| == |classes|
  {
    if irqsOn then classes[cls - 1 := Marked(classes[cls - 1], false)] else classes
  }

  function Drop(held: seq<Held>, k: nat): seq<Held>
    requires k < |held|
  {
    held[..k] + held[k + 1..]
  }

  ghost function Apply(s: State, a: Action): (r: State)
    requires Shaped(s) && Enabled(s, a)
    ensures r.classOf == s.classOf && |r.cpus| == |s.cpus| && |r.classes| == |s.classes|
  {
    var cpu := s.cpus[a.cpu];
    match a
    case Validate(c, l, on) =>
      var cls := s.classOf[l];
      s.(order := s.order + OrderEdges(cpu.held, false, cls), classes := MarkIf(s.classes, cls, on),
         cpus := s.cpus[c := Push(cpu, l, cls, false, on, Validated(l))])
    case TakeTicket(c) =>
      var l := cpu.mode.lock;
      s.(cpus := s.cpus[c := cpu.(mode := Spinning(l))], queues := s.queues[l := s.queues[l] + [c]])
    case Enter(c) => s.(cpus := s.cpus[c := cpu.(mode := Running)])
    case RawRelease(c, l) =>
      s.(cpus := s.cpus[c := cpu.(mode := Released(l))], queues := s.queues[l := s.queues[l][1..]])
    case ValidateRelease(c, on) =>
      var k := Topmost(cpu.held, cpu.mode.lock);
      s.(classes := MarkIf(s.classes, cpu.held[k].classId, on && !cpu.held[k].irqCtx),
         cpus := s.cpus[c := Cpu(Drop(cpu.held, k), Running)])
    case TryTake(c, l) => s.(cpus := s.cpus[c := cpu.(mode := TryWon(l))], queues := s.queues[l := [c]])
    case ValidateTry(c, on) =>
      var l := cpu.mode.lock;
      s.(classes := MarkIf(s.classes, s.classOf[l], on),
         cpus := s.cpus[c := Push(cpu, l, s.classOf[l], true, on, Running)])
  }

  ghost predicate IsRun(s: State, run: seq<Action>)
    requires Shaped(s)
    decreases |run|
  {
    run == [] || (Enabled(s, run[0]) && Shaped(Apply(s, run[0])) && IsRun(Apply(s, run[0]), run[1..]))
  }

  ghost function After(s: State, run: seq<Action>): State
    requires Shaped(s) && IsRun(s, run)
    decreases |run|
  {
    if run == [] then s else After(Apply(s, run[0]), run[1..])
  }

  /** All CPUs idle, all locks free, an empty graph. */
  ghost predicate Initial(s: State) {
    && Shaped(s) && s.order == {}
    && (forall c | 0 <= c < |s.cpus| :: s.cpus[c] == Cpu([], Running))
    && (forall l | l in s.queues :: s.queues[l] == [])
  }

  // ----- the invariant -----

  ghost predicate Ordered(s: State, held: seq<Held>, l: nat)
    requires l in s.classOf
  {
    forall i | 0 <= i < |held| :: held[i].instance == l || (held[i].classId, s.classOf[l]) in s.order
  }

  /** Held entries are in process context with their lock's class; a CPU about to wait has its edges in. */
  ghost predicate CpuOk(s: State, cpu: Cpu) {
    && (forall i | 0 <= i < |cpu.held| ::
          !cpu.held[i].irqCtx && cpu.held[i].instance in s.classOf
          && cpu.held[i].classId == s.classOf[cpu.held[i].instance])
    && (cpu.mode != Running ==> cpu.mode.lock in s.classOf)
    && (cpu.mode.Validated? || cpu.mode.Spinning? ==>
          Ordered(s, cpu.held, cpu.mode.lock) && HoldsInstance(cpu.held, cpu.mode.lock))
    && (cpu.mode.Released? ==> HoldsInstance(cpu.held, cpu.mode.lock))
  }

  /** Being in a lock's queue means owning it, having just won it, or waiting for it. */
  ghost predicate TicketOk(cpu: Cpu, l: nat, served: bool) {
    || cpu.mode == Spinning(l)
    || (served && cpu.mode == TryWon(l))
    || (served && HoldsInstance(cpu.held, l) && cpu.mode != Validated(l) && cpu.mode != Released(l))
  }

  ghost predicate QueueOk(cpus: seq<Cpu>, l: nat, q: seq<nat>) {
    && Distinct(q)
    && forall k | 0 <= k < |q| :: q[k] < |cpus| && TicketOk(cpus[q[k]], l, k == 0)
  }

  ghost predicate SpinnersQueued(s: State) {
    forall c | 0 <= c < |s.cpus| && s.cpus[c].mode.Spinning? ::
      s.cpus[c].mode.lock in s.queues && c in s.queues[s.cpus[c].mode.lock]
  }

  ghost predicate Inv(s: State) {
    && Shaped(s) && Acyclic(s.order)
    && (forall c | 0 <= c < |s.cpus| :: CpuOk(s, s.cpus[c]))
    && (forall l | l in s.queues :: QueueOk(s.cpus, l, s.queues[l]))
    && SpinnersQueued(s)
  }

  lemma InitialInv(s: State)
    requires Initial(s)
    ensures Inv(s)
  {
  }

  /** Changing one CPU leaves a queue in order if its own ticket there stays in order. */
  lemma QueueKept(cpus: seq<Cpu>, c: nat, cpu: Cpu, l: nat, q: seq<nat>)
    requires c < |cpus| && QueueOk(cpus, l, q)
    requires forall k | 0 <= k < |q| && q[k] == c :: TicketOk(cpu, l, k == 0)
    ensures QueueOk(cpus[c := cpu], l, q)
  {
  }

  lemma CpuOkGrows(s: State, r: State, cpu: Cpu)
    requires CpuOk(s, cpu) && r.classOf == s.classOf && s.order <= r.order
    ensures CpuOk(r, cpu)
  {
  }

  lemma SegmentIsAll(held: seq<Held>)
    requires forall i | 0 <= i < |held| :: !held[i].irqCtx
    ensures SegmentBase(held, false) == 0
  {
  }

  lemma ValidateInv(s: State, a: Action)
    requires Inv(s) && a.Validate? && Enabled(s, a)
    ensures Inv(Apply(s, a))
  {
    hide Acyclic;
    var c, l := a.cpu, a.lock;
    var r, cpu, cls := Apply(s, a), s.cpus[a.cpu], s.classOf[a.lock];
    CommitKeepsAcyclic(s.order, s.classes[cls - 1], cpu.held, l, cls, false, a.irqsOn, r.order);
    SegmentIsAll(cpu.held);
    ValidateOrdered(s, a);
    forall d | 0 <= d < |r.cpus| && d != c ensures CpuOk(r, r.cpus[d]) {
      CpuOkGrows(s, r, s.cpus[d]);
    }
    forall x | x in r.queues ensures QueueOk(r.cpus, x, r.queues[x]) {
      PushKeepsTickets(cpu, r.cpus[c], x);
      QueueKept(s.cpus, c, r.cpus[c], x, s.queues[x]);
    }
  }

  lemma ValidateOrdered(s: State, a: Action)
    requires Inv(s) && a.Validate? && Enabled(s, a)
    ensures var r := Apply(s, a);
            Ordered(r, r.cpus[a.cpu].held, a.lock) && HoldsInstance(r.cpus[a.cpu].held, a.lock)
  {
    assert Apply(s, a).cpus[a.cpu].held[|s.cpus[a.cpu].held|].instance == a.lock;
    var r, held, cls := Apply(s, a), s.cpus[a.cpu].held, s.classOf[a.lock];
    SegmentIsAll(held);
    forall i | 0 <= i < |held| ensures (held[i].classId, cls) in r.order {
      assert held[i].classId != cls;
      assert (held[i].classId, cls) in OrderEdges(held, false, cls);
    }
  }

  /** A running CPU's ticket survives a push, unless it is for the lock being validated. */
  lemma PushKeepsTickets(cpu: Cpu, after: Cpu, l: nat)
    requires cpu.held <= after.held && cpu.mode == Running
    requires after.mode.Validated? ==> !HoldsInstance(cpu.held, after.mode.lock)
    requires !after.mode.Released?
    ensures forall served :: TicketOk(cpu, l, served) ==> TicketOk(after, l, served)
  {
    if HoldsInstance(cpu.held, l) {
      var i :| 0 <= i < |cpu.held| && cpu.held[i].instance == l;
      assert after.held[i].instance == l;
    }
  }

  lemma OrderedStays(s: State, r: State, held: seq<Held>, l: nat)
    requires l in s.classOf && r.classOf == s.classOf && s.order <= r.order && Ordered(s, held, l)
    ensures Ordered(r, held, l)
  {
  }

  lemma TakeTicketInv(s: State, a: Action)
    requires Inv(s) && a.TakeTicket? && Enabled(s, a)
    ensures Inv(Apply(s, a))
  {
    hide Acyclic, HoldsInstance, Ordered, OrderEdges;
    var c, r := a.cpu, Apply(s, a);
    var cpu, l := s.cpus[c], s.cpus[c].mode.lock;
    OrderedStays(s, r, cpu.held, l);
    forall d | 0 <= d < |r.cpus| && d != c ensures CpuOk(r, r.cpus[d]) {
      CpuOkGrows(s, r, s.cpus[d]);
    }
    forall x | x in r.queues ensures QueueOk(r.cpus, x, r.queues[x]) {
      QueueKept(s.cpus, c, r.cpus[c], x, s.queues[x]);
      if x == l {
        assert c !in s.queues[l];
      }
    }
  }

  lemma EnterInv(s: State, a: Action)
    requires Inv(s) && a.Enter? && Enabled(s, a)
    ensures Inv(Apply(s, a))
  {
    hide Acyclic;
    var c, r := a.cpu, Apply(s, a);
    assert CpuOk(s, s.cpus[c]);
    forall x | x in r.queues ensures QueueOk(r.cpus, x, r.queues[x]) {
      QueueKept(s.cpus, c, r.cpus[c], x, s.queues[x]);
    }
  }

  lemma RawReleaseInv(s: State, a: Action)
    requires Inv(s) && a.RawRelease? && Enabled(s, a)
    ensures Inv(Apply(s, a))
  {
    hide Acyclic, HoldsInstance;
    var c, l, r := a.cpu, a.lock, Apply(s, a);
    var q := s.queues[l];
    assert QueueOk(s.cpus, l, q);
    forall x | x in r.queues ensures QueueOk(r.cpus, x, r.queues[x]) {
      if x == l {
        assert QueueOk(r.cpus, l, q[1..]) by {
          assert forall k | 0 <= k < |q[1..]| ::
                 q[1..][k] == q[k + 1] && q[k + 1] != c && TicketOk(s.cpus[q[k + 1]], l, false);
        }
      } else {
        QueueKept(s.cpus, c, r.cpus[c], x, s.queues[x]);
      }
    }
  }

  lemma DropKeepsOthers(held: seq<Held>, k: nat, l: nat)
    requires k < |held| && held[k].instance != l && HoldsInstance(held, l)
    ensures HoldsInstance(Drop(held, k), l)
  {
    var i :| 0 <= i < |held| && held[i].instance == l;
    assert Drop(held, k)[if i < k then i else i - 1] == held[i];
  }

  lemma ReleaseInv(s: State, a: Action)
    requires Inv(s) && a.ValidateRelease? && Enabled(s, a)
    ensures Inv(Apply(s, a))
  {
    hide Acyclic;
    var c, r := a.cpu, Apply(s, a);
    var cpu := s.cpus[c];
    var l := cpu.mode.lock;
    var k := Topmost(cpu.held, l);
    assert forall i | 0 <= i < |Drop(cpu.held, k)| ::
        Drop(cpu.held, k)[i] == cpu.held[if i < k then i else i + 1];
    forall d | 0 <= d < |r.cpus| && d != c ensures CpuOk(r, r.cpus[d]) {
      CpuOkGrows(s, r, s.cpus[d]);
    }
    forall x | x in r.queues ensures QueueOk(r.cpus, x, r.queues[x]) {
      var q := s.queues[x];
      forall i | 0 <= i < |q| && q[i] == c ensures TicketOk(r.cpus[c], x, i == 0) {
        assert TicketOk(cpu, x, i == 0);
        DropKeepsOthers(cpu.held, k, x);
      }
      QueueKept(s.cpus, c, r.cpus[c], x, q);
    }
  }

  lemma TryTakeInv(s: State, a: Action)
    requires Inv(s) && a.TryTake? && Enabled(s, a)
    ensures Inv(Apply(s, a))
  {
    hide Acyclic, HoldsInstance;
    var c, l, r := a.cpu, a.lock, Apply(s, a);
    forall x | x in r.queues ensures QueueOk(r.cpus, x, r.queues[x]) {
      if x != l {
        QueueKept(s.cpus, c, r.cpus[c], x, s.queues[x]);
      }
    }
  }

  lemma ValidateTryInv(s: State, a: Action)
    requires Inv(s) && a.ValidateTry? && Enabled(s, a)
    ensures Inv(Apply(s, a))
  {
    hide Acyclic;
    var c, r := a.cpu, Apply(s, a);
    var cpu := s.cpus[c];
    var l := cpu.mode.lock;
    assert r.cpus[c].held[|cpu.held|].instance == l;
    forall d | 0 <= d < |r.cpus| && d != c ensures CpuOk(r, r.cpus[d]) {
      CpuOkGrows(s, r, s.cpus[d]);
    }
    forall x | x in r.queues ensures QueueOk(r.cpus, x, r.queues[x]) {
      if HoldsInstance(cpu.held, x) {
        var i :| 0 <= i < |cpu.held| && cpu.held[i].instance == x;
        assert r.cpus[c].held[i].instance == x;
      }
      QueueKept(s.cpus, c, r.cpus[c], x, s.queues[x]);
    }
  }

  /** Every step of every CPU keeps the invariant. */
  lemma StepInv(s: State, a: Action)
    requires Inv(s) && Enabled(s, a)
    ensures Inv(Apply(s, a))
  {
    match a
    case Validate(_, _, _) => ValidateInv(s, a);
    case TakeTicket(_) => TakeTicketInv(s, a);
    case Enter(_) => EnterInv(s, a);
    case RawRelease(_, _) => RawReleaseInv(s, a);
    case ValidateRelease(_, _) => ReleaseInv(s, a);
    case TryTake(_, _) => TryTakeInv(s, a);
    case ValidateTry(_, _) => ValidateTryInv(s, a);
  }

  lemma {:induction false} RunInv(s: State, run: seq<Action>)
    requires Inv(s) && IsRun(s, run)
    ensures Inv(After(s, run))
    decreases |run|
  {
    hide Inv, Enabled, Apply;
    InvShaped(s);
    if run != [] {
      StepInv(s, run[0]);
      RunInv(Apply(s, run[0]), run[1..]);
    }
  }

  lemma InvShaped(s: State)
    ensures Inv(s) ==> Shaped(s)
  {
  }

  // ----- circular wait -----

  /** CPU `i` spins behind CPU `j` in the queue of some lock. */
  ghost predicate Waits(s: State, i: nat, j: nat)
    requires Shaped(s)
  {
    && i < |s.cpus| && s.cpus[i].mode.Spinning? && s.cpus[i].mode.lock in s.queues
    && var q := s.queues[s.cpus[i].mode.lock];
       exists a, b | 0 <= a < b < |q| :: q[a] == j && q[b] == i
  }

  ghost predicate IsWaiting(s: State, i: nat)
    requires Shaped(s)
  {
    exists j :: Waits(s, i, j)
  }

  ghost predicate WaitsNext(s: State, chain: seq<nat>, k: nat)
    requires Shaped(s) && k + 1 < |chain|
  {
    Waits(s, chain[k], chain[k + 1])
  }

  ghost predicate WaitChain(s: State, chain: seq<nat>)
    requires Shaped(s)
  {
    |chain| > 1 && forall k | 0 <= k < |chain| - 1 :: WaitsNext(s, chain, k)
  }

  /** Each CPU waits for the next one, and the chain comes back to where it started. */
  ghost predicate CircularWait(s: State, chain: seq<nat>)
    requires Shaped(s)
  {
    WaitChain(s, chain) && chain[|chain| - 1] == chain[0]
  }

  ghost function ClassWanted(s: State, i: nat): nat
    requires Shaped(s) && i < |s.cpus| && s.cpus[i].mode.Spinning? && s.cpus[i].mode.lock in s.queues
  {
    s.classOf[s.cpus[i].mode.lock]
  }

  /** How far back a spinning CPU stands. */
  ghost function Place(s: State, i: nat): (p: nat)
    requires Inv(s) && i < |s.cpus| && s.cpus[i].mode.Spinning?
    ensures var l := s.cpus[i].mode.lock; l in s.queues && p < |s.queues[l]| && s.queues[l][p] == i
  {
    var l := s.cpus[i].mode.lock;
    assert i in s.queues[l];
    var p: nat :| p < |s.queues[l]| && s.queues[l][p] == i;
    p
  }

  /** Waiting for a CPU that itself waits either moves up in one queue or follows an order edge. */
  lemma WaitsForWaiter(s: State, i: nat, j: nat, k: nat)
    requires Inv(s) && Waits(s, i, j) && Waits(s, j, k)
    ensures || (s.cpus[j].mode == s.cpus[i].mode && Place(s, j) < Place(s, i))
            || (ClassWanted(s, i), ClassWanted(s, j)) in s.order
  {
    hide Acyclic;
    var l := s.cpus[i].mode.lock;
    var q := s.queues[l];
    assert QueueOk(s.cpus, l, q);
    var a, b :| 0 <= a < b < |q| && q[a] == j && q[b] == i;
    var l' := s.cpus[j].mode.lock;
    if l' == l {
      assert Place(s, j) == a && Place(s, i) == b;
    } else {
      assert TicketOk(s.cpus[j], l, a == 0);
      assert HoldsInstance(s.cpus[j].held, l);
      assert CpuOk(s, s.cpus[j]);
      var h :| 0 <= h < |s.cpus[j].held| && s.cpus[j].held[h].instance == l;
    }
  }

  /** The wanted class of `j` is reached from that of `i` by edges, or `j` is ahead in the same queue. */
  ghost predicate Ahead(s: State, i: nat, j: nat)
    requires Inv(s)
  {
    && i < |s.cpus| && s.cpus[i].mode.Spinning? && s.cpus[i].mode.lock in s.queues
    && j < |s.cpus| && s.cpus[j].mode.Spinning? && s.cpus[j].mode.lock in s.queues
    && (|| (s.cpus[j].mode == s.cpus[i].mode && Place(s, j) < Place(s, i))
        || ReachByEdge(s.order, ClassWanted(s, i), ClassWanted(s, j)))
  }

  lemma AheadOne(s: State, i: nat, j: nat)
    requires Inv(s) && Waits(s, i, j) && IsWaiting(s, j)
    ensures Ahead(s, i, j)
  {
    hide Inv;
    InvShaped(s);
    var k :| Waits(s, j, k);
    WaitsForWaiter(s, i, j, k);
    if (ClassWanted(s, i), ClassWanted(s, j)) in s.order {
      ReachSelf(s.order, ClassWanted(s, j));
    }
  }

  lemma AheadTrans(s: State, i: nat, j: nat, k: nat)
    requires Inv(s) && Ahead(s, i, j) && Ahead(s, j, k)
    ensures Ahead(s, i, k)
  {
    hide Inv;
    InvShaped(s);
    var a, b, c := ClassWanted(s, i), ClassWanted(s, j), ClassWanted(s, k);
    if ReachByEdge(s.order, a, b) && ReachByEdge(s.order, b, c) {
      var m: nat :| (a, m) in s.order && Reach(s.order, m, b);
      var n: nat :| (b, n) in s.order && Reach(s.order, n, c);
      ReachEdge(s.order, b, n);
      ReachTrans(s.order, m, b, n);
      ReachTrans(s.order, m, n, c);
    }
  }

  lemma {:induction false} AheadAlong(s: State, chain: seq<nat>)
    requires Inv(s) && WaitChain(s, chain) && IsWaiting(s, chain[|chain| - 1])
    ensures Ahead(s, chain[0], chain[|chain| - 1])
    decreases |chain|
  {
    hide Inv, Waits, Ahead;
    InvShaped(s);
    var n := |chain|;
    var front, prev, last := chain[..n - 1], chain[n - 2], chain[n - 1];
    assert WaitsNext(s, chain, n - 2);
    AheadOne(s, prev, last);
    if n > 2 {
      forall k | 0 <= k < |front| - 1 ensures WaitsNext(s, front, k) {
        assert WaitsNext(s, chain, k);
      }
      AheadAlong(s, front);
      AheadTrans(s, chain[0], prev, last);
    }
  }

  ghost predicate ReachByEdge(g: set<Edge>, a: nat, b: nat) {
    exists m: nat :: (a, m) in g && Reach(g, m, b)
  }

  /** No state that satisfies the invariant has a circular wait. */
  lemma NoCircularWaitIn(s: State, chain: seq<nat>)
    requires Inv(s)
    ensures !CircularWait(s, chain)
  {
    hide Waits;
    if CircularWait(s, chain) {
      assert WaitsNext(s, chain, 0);
      AheadAlong(s, chain);
    }
  }

  /** No CPU occurs twice on a chain of waits. */
  lemma WaitChainDistinct(s: State, chain: seq<nat>)
    requires Inv(s) && WaitChain(s, chain)
    ensures Distinct(chain)
  {
    hide Inv, Waits;
    InvShaped(s);
    forall i, j | 0 <= i < j < |chain| ensures chain[i] != chain[j] {
      var loop := chain[i..j + 1];
      forall k | 0 <= k < |loop| - 1 ensures WaitsNext(s, loop, k) {
        assert WaitsNext(s, chain, i + k);
      }
      NoCircularWaitIn(s, loop);
    }
  }

  lemma WaitChainShort(s: State, chain: seq<nat>)
    requires Inv(s) && WaitChain(s, chain)
    ensures |chain| <= |s.cpus|
  {
    WaitChainDistinct(s, chain);
    forall k | 0 <= k < |chain| ensures chain[k] < |s.cpus| {
      if k < |chain| - 1 {
        assert WaitsNext(s, chain, k);
      } else {
        assert WaitsNext(s, chain, k - 1);
        assert QueueOk(s.cpus, s.cpus[chain[k - 1]].mode.lock, s.queues[s.cpus[chain[k - 1]].mode.lock]);
      }
    }
    DistinctFits(seq(|chain|, k requires 0 <= k < |chain| => chain[k] + 1), |s.cpus|);
  }

  /** Following waits from a waiting CPU leads to one that does not wait. */
  lemma {:induction false} WaitEnds(s: State, chain: seq<nat>) returns (full: seq<nat>)
    requires Inv(s) && WaitChain(s, chain)
    ensures WaitChain(s, full) && full[0] == chain[0] && !IsWaiting(s, full[|full| - 1])
    decreases |s.cpus| - |chain|
  {
    hide Inv, Waits;
    InvShaped(s);
    WaitChainShort(s, chain);
    var last := chain[|chain| - 1];
    if IsWaiting(s, last) {
      var j :| Waits(s, last, j);
      var longer := chain + [j];
      forall k | 0 <= k < |longer| - 1 ensures WaitsNext(s, longer, k) {
        if k < |chain| - 1 {
          assert WaitsNext(s, chain, k);
        }
      }
      WaitChainShort(s, longer);
      full := WaitEnds(s, longer);
    } else {
      full := chain;
    }
  }

  /** A spinning CPU that waits for nobody is being served and can enter. */
  lemma NotWaitingCanEnter(s: State, c: nat)
    requires Inv(s) && c < |s.cpus| && s.cpus[c].mode.Spinning? && !IsWaiting(s, c)
    ensures Enabled(s, Enter(c))
  {
    var l := s.cpus[c].mode.lock;
    var q, p := s.queues[l], Place(s, c);
    if p > 0 {
      assert Waits(s, c, q[0]);
    }
  }

  /** The validator reports the lock a try has just won: that step is not part of a clean run. */
  ghost predicate TryReported(s: State, a: Action)
    requires Shaped(s)
  {
    && a.ValidateTry? && a.cpu < |s.cpus| && s.cpus[a.cpu].mode.TryWon? && s.cpus[a.cpu].mode.lock in s.classOf
    && Verdict(s, a.cpu, s.cpus[a.cpu].mode.lock, a.irqsOn, true) != Ok
  }

  /** A CPU that another waits for, and that waits for nobody, has a step to take: an owner at large can
      release, a validated CPU can queue, a served one enter, a releasing one finish. Only a try that was just
      won may be reported instead. */
  lemma LastGoesOn(s: State, i: nat, c: nat) returns (a: Action)
    requires Inv(s) && Waits(s, i, c) && !IsWaiting(s, c)
    ensures a.cpu == c < |s.cpus| && (Enabled(s, a) || TryReported(s, a))
  {
    hide Acyclic;
    var l := s.cpus[i].mode.lock;
    WaitedForExists(s, i, c);
    var cpu := s.cpus[c];
    assert CpuOk(s, cpu) && QueueOk(s.cpus, l, s.queues[l]);
    match cpu.mode
    case Running =>
      a := RawRelease(c, l);
      var q := s.queues[l];
      var x, y :| 0 <= x < y < |q| && q[x] == c && q[y] == i;
      assert TicketOk(s.cpus[q[x]], l, x == 0);
    case Validated(_) => a := TakeTicket(c);
    case Spinning(_) =>
      a := Enter(c);
      NotWaitingCanEnter(s, c);
    case Released(m) =>
      a := ValidateRelease(c, false);
      TopmostHeld(s, cpu, m);
    case TryWon(_) => a := ValidateTry(c, false);
  }

  lemma TopmostHeld(s: State, cpu: Cpu, l: nat)
    requires Shaped(s) && CpuOk(s, cpu) && HoldsInstance(cpu.held, l)
    ensures CleanRelease(s, cpu.held, l, false)
  {
  }

  /** Whenever a CPU waits in a reachable state, following the waits finds one that has a step to take. */
  lemma NoDeadlock(s: State, run: seq<Action>, i: nat) returns (full: seq<nat>, next: Action)
    requires Initial(s) && IsRun(s, run) && Shaped(After(s, run)) && IsWaiting(After(s, run), i)
    ensures var r := After(s, run);
            && WaitChain(r, full) && full[0] == i && !IsWaiting(r, full[|full| - 1])
            && next.cpu == full[|full| - 1] && (Enabled(r, next) || TryReported(r, next))
  {
    hide Inv, Waits, Enabled, TryReported;
    InitialInv(s);
    RunInv(s, run);
    var r := After(s, run);
    var j :| Waits(r, i, j);
    assert WaitsNext(r, [i, j], 0);
    full := WaitEnds(r, [i, j]);
    var last := full[|full| - 1];
    assert WaitsNext(r, full, |full| - 2);
    next := LastGoesOn(r, full[|full| - 2], last);
  }

  lemma WaitedForExists(s: State, i: nat, j: nat)
    requires Inv(s) && Waits(s, i, j)
    ensures j < |s.cpus|
  {
    assert QueueOk(s.cpus, s.cpus[i].mode.lock, s.queues[s.cpus[i].mode.lock]);
  }

  /** In every run from rest, with the validator on and nothing reported, no state has a circular wait. */
  lemma NoCircularWait(s: State, run: seq<Action>, chain: seq<nat>)
    requires Initial(s) && IsRun(s, run)
    ensures Shaped(After(s, run)) && Acyclic(After(s, run).order) && !CircularWait(After(s, run), chain)
  {
    hide Inv;
    InitialInv(s);
    RunInv(s, run);
    InvShaped(After(s, run));
    InvAcyclic(After(s, run));
    NoCircularWaitIn(After(s, run), chain);
  }

  lemma InvAcyclic(s: State)
    requires Inv(s)
    ensures Acyclic(s.order)
  {
  }
}
