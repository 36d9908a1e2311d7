/** The ticket lock with its two wrapping 32-bit counters, refining a first-come first-served queue. */
module TicketLock {
  import opened Sequences
  import opened Words

  const WRAP: nat := TWO32

  /** Where a contender is: spinning on its ticket, holding, or between the load and the
      compare-exchange of a try. */
  datatype Pc = Idle | Waiting(ticket: nat) | Holding(ticket: nat) | TryLoaded(seen: nat)

  datatype Lock = Lock(next: nat, owner: nat, pcs: seq<Pc>)

  datatype Step =
    | FetchAdd(cpu: nat)
    | SeeOwner(cpu: nat)
    | TryLoad(cpu: nat)
    | TryExchange(cpu: nat)
    | Unlock(cpu: nat)

  predicate Enabled(s: Lock, step: Step) {
    && step.cpu < |s.pcs|
    && var pc := s.pcs[step.cpu];
       match step
       case FetchAdd(_) => pc == Idle
       case SeeOwner(_) => pc.Waiting? && pc.ticket == s.owner
       case TryLoad(_) => pc == Idle
       case TryExchange(_) => pc.TryLoaded?
       case Unlock(_) => pc.Holding?
  }

  function Apply(s: Lock, step: Step): (r: Lock)
    requires Enabled(s, step)
    ensures |r.pcs| == |s.pcs|
  {
    var c := step.cpu;
    match step
    case FetchAdd(_) => s.(next := (s.next + 1) % WRAP, pcs := s.pcs[c := Waiting(s.next)])
    case SeeOwner(_) => s.(pcs := s.pcs[c := Holding(s.pcs[c].ticket)])
    case TryLoad(_) => s.(pcs := s.pcs[c := TryLoaded(s.owner)])
    case TryExchange(_) =>
      var seen := s.pcs[c].seen;
      if s.next == seen then s.(next := (seen + 1) % WRAP, pcs := s.pcs[c := Holding(seen)])
      else s.(pcs := s.pcs[c := Idle])
    case Unlock(_) => s.(owner := (s.owner + 1) % WRAP, pcs := s.pcs[c := Idle])
  }

  // ----- the queue it stands for -----

  /** Contenders in arrival order, how many were served before them, and how many had been served when
      each contender last looked. */
  datatype Fifo = Fifo(queue: seq<nat>, served: nat, looked: seq<nat>)

  predicate TicketAt(s: Lock, f: Fifo, k: nat)
    requires k < |f.queue| && f.queue[k] < |s.pcs|
  {
    var pc := s.pcs[f.queue[k]];
    (pc.Waiting? || (k == 0 && pc.Holding?)) && pc.ticket == (f.served + k) % WRAP
  }

  /** Outstanding tickets are exactly those from `owner` up to `next`, one to a queued contender. */
  ghost predicate Refines(s: Lock, f: Fifo) {
    && |s.pcs| == |f.looked| < WRAP
    && s.owner == f.served % WRAP
    && s.next == (f.served + |f.queue|) % WRAP
    && Distinct(f.queue)
    && (forall k | 0 <= k < |f.queue| :: f.queue[k] < |s.pcs| && TicketAt(s, f, k))
    && (forall c | 0 <= c < |s.pcs| && c !in f.queue ::
          s.pcs[c] == Idle || (f.looked[c] <= f.served && s.pcs[c] == TryLoaded(f.looked[c] % WRAP)))
  }

  /** A try between whose load and exchange fewer than 2^32 tickets were handed out. */
  predicate ShortWindow(f: Fifo, c: nat)
    requires c < |f.looked|
  {
    f.served + |f.queue| < f.looked[c] + WRAP
  }

  /** The counters are back where they were at the load: as a rule nothing was served since. */
  predicate WholeLaps(f: Fifo, c: nat)
    requires c < |f.looked|
  {
    (f.served - f.looked[c]) % WRAP == 0
  }

  /** The exchange does not succeed on tickets that came round again: `next` is back at the value read, but
      `owner` is not. */
  predicate Sound(s: Lock, c: nat)
    requires Enabled(s, TryExchange(c))
  {
    s.next == s.pcs[c].seen ==> s.owner == s.pcs[c].seen
  }

  function FifoApply(f: Fifo, step: Step): (r: Fifo)
    requires step.cpu < |f.looked|
    ensures |r.looked| == |f.looked|
  {
    match step
    case FetchAdd(c) => f.(queue := f.queue + [c])
    case SeeOwner(_) => f
    case TryLoad(c) => f.(looked := f.looked[c := f.served])
    case TryExchange(c) => if f.queue == [] && WholeLaps(f, c) then f.(queue := [c]) else f
    case Unlock(_) => if f.queue == [] then f else f.(queue := f.queue[1..], served := f.served + 1)
  }

  lemma QueueFits(s: Lock, f: Fifo)
    requires Refines(s, f)
    ensures |f.queue| <= |s.pcs| < WRAP
  {
    DistinctFits(seq(|f.queue|, k requires 0 <= k < |f.queue| => f.queue[k] + 1), |s.pcs|);
  }

  lemma NotQueued(s: Lock, f: Fifo, c: nat)
    requires Refines(s, f) && c < |s.pcs| && (s.pcs[c].Idle? || s.pcs[c].TryLoaded?)
    ensures c !in f.queue
  {
    assert forall k | 0 <= k < |f.queue| :: TicketAt(s, f, k);
  }

  lemma SameResidue(a: nat, k: nat)
    requires k < WRAP && (a + k) % WRAP == a % WRAP
    ensures k == 0
  {
  }

  lemma NextResidue(a: nat)
    ensures (a % WRAP + 1) % WRAP == (a + 1) % WRAP
  {
  }

  /** Only the head of the queue sees its ticket served, and only the head can hold. */
  lemma ServedIsHead(s: Lock, f: Fifo, c: nat)
    requires Refines(s, f) && c < |s.pcs|
    requires s.pcs[c].Holding? || (s.pcs[c].Waiting? && s.pcs[c].ticket == s.owner)
    ensures f.queue != [] && f.queue[0] == c
  {
    QueueFits(s, f);
    assert c in f.queue;
    var k :| 0 <= k < |f.queue| && f.queue[k] == c;
    assert TicketAt(s, f, k);
    SameResidue(f.served, k);
  }

  lemma FetchAddRefines(s: Lock, f: Fifo, c: nat)
    requires Refines(s, f) && Enabled(s, FetchAdd(c))
    ensures Refines(Apply(s, FetchAdd(c)), FifoApply(f, FetchAdd(c)))
  {
    var r, g := Apply(s, FetchAdd(c)), FifoApply(f, FetchAdd(c));
    NotQueued(s, f, c);
    NextResidue(f.served + |f.queue|);
    forall k | 0 <= k < |g.queue| ensures TicketAt(r, g, k) {
      if k < |f.queue| {
        assert TicketAt(s, f, k);
      }
    }
    forall d | 0 <= d < |r.pcs| && d !in g.queue ensures d !in f.queue && d != c {
      assert g.queue == f.queue + [c];
    }
  }

  lemma UnlockRefines(s: Lock, f: Fifo, c: nat)
    requires Refines(s, f) && Enabled(s, Unlock(c))
    ensures f.queue != [] && Refines(Apply(s, Unlock(c)), FifoApply(f, Unlock(c)))
  {
    ServedIsHead(s, f, c);
    var r, g := Apply(s, Unlock(c)), FifoApply(f, Unlock(c));
    NextResidue(f.served);
    forall k | 0 <= k < |g.queue| ensures g.queue[k] < |r.pcs| && TicketAt(r, g, k) {
      assert g.queue[k] == f.queue[k + 1] != c;
      assert TicketAt(s, f, k + 1);
    }
    forall d | 0 <= d < |r.pcs| && d !in g.queue ensures d == c || d !in f.queue {
      assert f.queue == [c] + g.queue;
    }
  }

  lemma ResiduesAgree(a: nat, b: nat)
    requires a <= b
    ensures (b - a) % WRAP == 0 <==> a % WRAP == b % WRAP
  {
  }

  /** A compare-exchange that finds the value it read finds the lock free if and only if `owner` is still, or
      again, at that value: the number served since the load is a multiple of 2^32. A short window suffices. */
  lemma ExchangeIsSafe(s: Lock, f: Fifo, c: nat)
    requires Refines(s, f) && Enabled(s, TryExchange(c)) && s.next == s.pcs[c].seen
    ensures c !in f.queue
    ensures f.queue == [] <==> s.owner == s.pcs[c].seen
    ensures f.queue == [] <==> WholeLaps(f, c)
    ensures ShortWindow(f, c) ==> f.queue == []
  {
    QueueFits(s, f);
    NotQueued(s, f, c);
    ResiduesAgree(f.looked[c], f.served);
    if s.owner == s.pcs[c].seen {
      SameResidue(f.served, |f.queue|);
    }
    if ShortWindow(f, c) {
      SameResidue(f.looked[c], f.served + |f.queue| - f.looked[c]);
    }
  }

  /** A short window is sound. */
  lemma ShortIsSound(s: Lock, f: Fifo, c: nat)
    requires Refines(s, f) && Enabled(s, TryExchange(c)) && ShortWindow(f, c)
    ensures Sound(s, c)
  {
    if s.next == s.pcs[c].seen {
      ExchangeIsSafe(s, f, c);
    }
  }

  /** The exchange is a step of the queue if and only if it is sound. */
  lemma TryExchangeRefines(s: Lock, f: Fifo, c: nat)
    requires Refines(s, f) && Enabled(s, TryExchange(c))
    ensures Refines(Apply(s, TryExchange(c)), FifoApply(f, TryExchange(c))) <==> Sound(s, c)
  {
    var r, g := Apply(s, TryExchange(c)), FifoApply(f, TryExchange(c));
    NotQueued(s, f, c);
    if s.next == s.pcs[c].seen {
      ExchangeIsSafe(s, f, c);
      if Sound(s, c) {
        NextResidue(f.served);
        assert TicketAt(r, g, 0);
      } else {
        assert r.pcs[c].Holding?;
      }
    } else {
      TryFails(s, f, c);
      forall k | 0 <= k < |g.queue| ensures TicketAt(r, g, k) {
        assert TicketAt(s, f, k);
      }
    }
  }

  /** Where the exchange fails the queue does not move either. */
  lemma TryFails(s: Lock, f: Fifo, c: nat)
    requires Refines(s, f) && Enabled(s, TryExchange(c)) && s.next != s.pcs[c].seen
    ensures FifoApply(f, TryExchange(c)) == f
  {
    NotQueued(s, f, c);
    ResiduesAgree(f.looked[c], f.served);
  }

  lemma LookRefines(s: Lock, f: Fifo, step: Step)
    requires Refines(s, f) && Enabled(s, step) && (step.SeeOwner? || step.TryLoad?)
    ensures Refines(Apply(s, step), FifoApply(f, step))
  {
    var c, r, g := step.cpu, Apply(s, step), FifoApply(f, step);
    if step.SeeOwner? {
      ServedIsHead(s, f, c);
    } else {
      NotQueued(s, f, c);
    }
    forall k | 0 <= k < |g.queue| ensures TicketAt(r, g, k) {
      assert TicketAt(s, f, k);
    }
  }

  lemma StepRefines(s: Lock, f: Fifo, step: Step)
    requires Refines(s, f) && Enabled(s, step) && (step.TryExchange? ==> Sound(s, step.cpu))
    ensures Refines(Apply(s, step), FifoApply(f, step))
  {
    match step
    case FetchAdd(c) => FetchAddRefines(s, f, c);
    case SeeOwner(_) => LookRefines(s, f, step);
    case TryLoad(_) => LookRefines(s, f, step);
    case TryExchange(c) => TryExchangeRefines(s, f, c);
    case Unlock(c) => UnlockRefines(s, f, c);
  }

  // ----- whole runs -----

  /** A run of the lock in step with the queue, in which no exchange succeeds on tickets that came round. */
  ghost predicate IsRun(s: Lock, f: Fifo, run: seq<Step>)
    decreases |run|
  {
    run == [] || (
      && Enabled(s, run[0]) && run[0].cpu < |f.looked|
      && (run[0].TryExchange? ==> Sound(s, run[0].cpu))
      && IsRun(Apply(s, run[0]), FifoApply(f, run[0]), run[1..]))
  }

  ghost function After(s: Lock, f: Fifo, run: seq<Step>): (Lock, Fifo)
    requires IsRun(s, f, run)
    decreases |run|
  {
    if run == [] then (s, f) else After(Apply(s, run[0]), FifoApply(f, run[0]), run[1..])
  }

  lemma {:induction false} RunRefines(s: Lock, f: Fifo, run: seq<Step>)
    requires Refines(s, f) && IsRun(s, f, run)
    ensures Refines(After(s, f, run).0, After(s, f, run).1)
    decreases |run|
  {
    hide Refines, Apply, FifoApply, Enabled;
    if run != [] {
      StepRefines(s, f, run[0]);
      RunRefines(Apply(s, run[0]), FifoApply(f, run[0]), run[1..]);
    }
  }

  /** The same with every try window short. */
  ghost predicate IsShortRun(s: Lock, f: Fifo, run: seq<Step>)
    decreases |run|
  {
    run == [] || (
      && Enabled(s, run[0]) && run[0].cpu < |f.looked|
      && (run[0].TryExchange? ==> ShortWindow(f, run[0].cpu))
      && IsShortRun(Apply(s, run[0]), FifoApply(f, run[0]), run[1..]))
  }

  /** A run whose try windows all span fewer than 2^32 tickets is one of these runs. */
  lemma {:induction false} ShortRunIsRun(s: Lock, f: Fifo, run: seq<Step>)
    requires Refines(s, f) && IsShortRun(s, f, run)
    ensures IsRun(s, f, run)
    decreases |run|
  {
    hide Refines, Apply, FifoApply, Enabled, ShortWindow, Sound;
    if run != [] {
      if run[0].TryExchange? {
        ShortIsSound(s, f, run[0].cpu);
      }
      StepRefines(s, f, run[0]);
      ShortRunIsRun(Apply(s, run[0]), FifoApply(f, run[0]), run[1..]);
    }
  }

  /** A fresh lock with its counters anywhere, so that runs may wrap at once. */
  function Start(n: nat, counter: nat): (Lock, Fifo) {
    (Lock(counter % WRAP, counter % WRAP, seq(n, _ => Idle)), Fifo([], counter, seq(n, _ => 0)))
  }

  lemma StartRefines(n: nat, counter: nat)
    requires n < WRAP
    ensures Refines(Start(n, counter).0, Start(n, counter).1)
  {
  }

  /** In every run: at most one holder, and it is the one that came first; the lock reads free exactly
      when nobody holds or waits; whoever came first can always go on. */
  lemma MutualExclusionAndFifo(n: nat, counter: nat, run: seq<Step>)
    requires n < WRAP && IsRun(Start(n, counter).0, Start(n, counter).1, run)
    ensures var (s, f) := After(Start(n, counter).0, Start(n, counter).1, run);
            && (forall c | 0 <= c < |s.pcs| && s.pcs[c].Holding? :: f.queue != [] && f.queue[0] == c)
            && (s.next == s.owner <==> f.queue == [])
            && (f.queue != [] ==>
                  f.queue[0] < |s.pcs| && (s.pcs[f.queue[0]].Holding? || Enabled(s, SeeOwner(f.queue[0]))))
  {
    StartRefines(n, counter);
    var (s0, f0) := Start(n, counter);
    RunRefines(s0, f0, run);
    var (s, f) := After(s0, f0, run);
    forall c | 0 <= c < |s.pcs| && s.pcs[c].Holding? ensures f.queue != [] && f.queue[0] == c {
      ServedIsHead(s, f, c);
    }
    QueueFits(s, f);
    if s.next == s.owner {
      SameResidue(f.served, |f.queue|);
    }
    if f.queue != [] {
      assert TicketAt(s, f, 0);
    }
  }

  /** Outstanding tickets are pairwise distinct, across wrap-around. */
  lemma TicketsDistinct(s: Lock, f: Fifo, i: nat, j: nat)
    requires Refines(s, f) && i < j < |f.queue|
    ensures f.queue[i] < |s.pcs| && f.queue[j] < |s.pcs|
    ensures !s.pcs[f.queue[i]].Idle? && !s.pcs[f.queue[i]].TryLoaded?
    ensures !s.pcs[f.queue[j]].Idle? && !s.pcs[f.queue[j]].TryLoaded?
    ensures s.pcs[f.queue[i]].ticket != s.pcs[f.queue[j]].ticket
  {
    QueueFits(s, f);
    assert TicketAt(s, f, i) && TicketAt(s, f, j);
    if s.pcs[f.queue[i]].ticket == s.pcs[f.queue[j]].ticket {
      SameResidue(f.served + i, j - i);
    }
  }

  // ----- a run that ends in two holders -----

  /** CPU 0 takes and releases the lock `k` times, then takes it once more. */
  function Laps(k: nat): seq<Step> {
    if k == 0 then [FetchAdd(0), SeeOwner(0)] else [FetchAdd(0), SeeOwner(0), Unlock(0)] + Laps(k - 1)
  }

  lemma RunCons(s: Lock, f: Fifo, step: Step, rest: seq<Step>)
    requires Enabled(s, step) && step.cpu < |f.looked| && !step.TryExchange?
    ensures IsRun(s, f, [step] + rest) == IsRun(Apply(s, step), FifoApply(f, step), rest)
    ensures IsRun(s, f, [step] + rest) ==> After(s, f, [step] + rest) == After(Apply(s, step), FifoApply(f, step), rest)
  {
    assert ([step] + rest)[1..] == rest;
  }

  function Free(v: nat, seen: nat): Lock {
    Lock(v % WRAP, v % WRAP, [Idle, TryLoaded(seen)])
  }

  function Taken(v: nat, seen: nat, pc: Pc): Lock {
    Lock((v + 1) % WRAP, v % WRAP, [pc, TryLoaded(seen)])
  }

  /** Taking a free lock, with another CPU inside its try. */
  lemma TakeRun(v: nat, seen: nat, looked: seq<nat>, rest: seq<Step>)
    requires |looked| == 2
    ensures IsRun(Free(v, seen), Fifo([], v, looked), [FetchAdd(0), SeeOwner(0)] + rest)
         == IsRun(Taken(v, seen, Holding(v % WRAP)), Fifo([0], v, looked), rest)
    ensures IsRun(Taken(v, seen, Holding(v % WRAP)), Fifo([0], v, looked), rest) ==>
              After(Free(v, seen), Fifo([], v, looked), [FetchAdd(0), SeeOwner(0)] + rest)
              == After(Taken(v, seen, Holding(v % WRAP)), Fifo([0], v, looked), rest)
  {
    hide IsRun, After;
    var s, f := Free(v, seen), Fifo([], v, looked);
    NextResidue(v);
    assert [FetchAdd(0), SeeOwner(0)] + rest == [FetchAdd(0)] + ([SeeOwner(0)] + rest);
    RunCons(s, f, FetchAdd(0), [SeeOwner(0)] + rest);
    assert Apply(s, FetchAdd(0)) == Taken(v, seen, Waiting(v % WRAP));
    assert FifoApply(f, FetchAdd(0)) == Fifo([0], v, looked);
    RunCons(Taken(v, seen, Waiting(v % WRAP)), Fifo([0], v, looked), SeeOwner(0), rest);
    assert Apply(Taken(v, seen, Waiting(v % WRAP)), SeeOwner(0)) == Taken(v, seen, Holding(v % WRAP));
  }

  lemma {:induction false} LapsRun(v: nat, seen: nat, looked: seq<nat>, k: nat)
    requires |looked| == 2
    ensures IsRun(Free(v, seen), Fifo([], v, looked), Laps(k))
    ensures After(Free(v, seen), Fifo([], v, looked), Laps(k)) ==
            (Taken(v + k, seen, Holding((v + k) % WRAP)), Fifo([0], v + k, looked))
    decreases k
  {
    var s, f := Taken(v, seen, Holding(v % WRAP)), Fifo([0], v, looked);
    if k == 0 {
      TakeRun(v, seen, looked, []);
      assert [FetchAdd(0), SeeOwner(0)] + [] == Laps(0);
    } else {
      hide IsRun, After, Enabled, Apply, FifoApply, Taken, Free;
      ReleaseStep(v, seen, looked);
      LapsRun(v + 1, seen, looked, k - 1);
      var rest := Laps(k - 1);
      assert Laps(k) == [FetchAdd(0), SeeOwner(0)] + ([Unlock(0)] + rest);
      TakeRun(v, seen, looked, [Unlock(0)] + rest);
      RunCons(s, f, Unlock(0), rest);
    }
  }

  lemma ReleaseStep(v: nat, seen: nat, looked: seq<nat>)
    requires |looked| == 2
    ensures var s, f := Taken(v, seen, Holding(v % WRAP)), Fifo([0], v, looked);
            && Enabled(s, Unlock(0)) && Apply(s, Unlock(0)) == Free(v + 1, seen)
            && FifoApply(f, Unlock(0)) == Fifo([], v + 1, looked)
  {
    NextResidue(v);
  }

  /** Soundness cannot be dropped: whatever the counters start at, a run in which 2^32 tickets are taken inside
      one try window leads to a state where the try succeeds while the lock is held. */
  lemma LongWindowBreaksExclusion(counter: nat) returns (run: seq<Step>)
    ensures IsRun(Start(2, counter).0, Start(2, counter).1, run)
    ensures var s := After(Start(2, counter).0, Start(2, counter).1, run).0;
            && Enabled(s, TryExchange(1)) && !Sound(s, 1)
            && Apply(s, TryExchange(1)).pcs[0].Holding? && Apply(s, TryExchange(1)).pcs[1].Holding?
  {
    var (s0, f0) := Start(2, counter);
    var seen, looked := counter % WRAP, [0, counter];
    hide IsRun, After;
    LapsRun(counter, seen, looked, WRAP - 1);
    run := [TryLoad(1)] + Laps(WRAP - 1);
    RunCons(s0, f0, TryLoad(1), Laps(WRAP - 1));
    assert Apply(s0, TryLoad(1)) == Free(counter, seen);
    assert FifoApply(f0, TryLoad(1)) == Fifo([], counter, looked);
    ResiduesAgree(counter, counter + WRAP);
  }
}
