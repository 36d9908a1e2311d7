/** One-shot timers: the heap in place, arming and cancelling, and the expiry pass. */
module Timers {
  import opened Sequences
  import opened Statuses
  import opened TimerHeap

  const HEAP_CAP := 256
  const MAX_DELTA := 0x100_0000_0000

  // ----- what happened to the timers -----

  datatype Event = Armed_(t: nat) | Cancelled(t: nat) | Reset(t: nat) | Called(t: nat)

  /** The timer's last event was an arming. */
  ghost predicate Pending(h: seq<Event>, t: nat) {
    h != [] && var e := h[|h| - 1]; if e.t == t then e.Armed_? else Pending(h[..|h| - 1], t)
  }

  /** A callback only ever runs for a pending timer. */
  ghost predicate Lawful(h: seq<Event>) {
    h == [] || (Lawful(h[..|h| - 1]) && (h[|h| - 1].Called? ==> Pending(h[..|h| - 1], h[|h| - 1].t)))
  }

  lemma Append(h: seq<Event>, e: Event)
    ensures forall t :: Pending(h + [e], t) <==> if e.t == t then e.Armed_? else Pending(h, t)
    ensures Lawful(h + [e]) <==> Lawful(h) && (e.Called? ==> Pending(h, e.t))
  {
    assert (h + [e])[..|h|] == h;
  }

  ghost function Count(h: seq<Event>, e: Event): nat {
    if h == [] then 0 else Count(h[..|h| - 1], e) + if h[|h| - 1] == e then 1 else 0
  }

  /** There are never more callbacks than armings. */
  lemma {:induction false} CallsBounded(h: seq<Event>, t: nat)
    requires Lawful(h)
    ensures Count(h, Called(t)) + (if Pending(h, t) then 1 else 0) <= Count(h, Armed_(t))
  {
    if h != [] {
      CallsBounded(h[..|h| - 1], t);
    }
  }

  /** Between a cancel, a reset or a callback and the next callback the timer was armed again. */
  lemma {:induction false} ArmedBetween(h: seq<Event>, i: nat, j: nat, t: nat) returns (k: nat)
    requires Lawful(h) && i < j < |h| && h[i] in {Cancelled(t), Reset(t), Called(t)} && h[j] == Called(t)
    ensures i < k < j && h[k] == Armed_(t)
    decreases |h|
  {
    if j < |h| - 1 {
      k := ArmedBetween(h[..|h| - 1], i, j, t);
    } else {
      k := LastArmed(h[..j], t, i);
    }
  }

  lemma {:induction false} LastArmed(h: seq<Event>, t: nat, i: nat) returns (k: nat)
    requires Pending(h, t) && i < |h| && h[i].t == t && !h[i].Armed_?
    ensures i < k < |h| && h[k] == Armed_(t)
  {
    var n := |h| - 1;
    if h[n].t == t {
      k := n;
    } else {
      k := LastArmed(h[..n], t, i);
    }
  }

  /** When the timer's last event was; -1 if it has none. */
  ghost function When(h: seq<Event>, t: nat): (k: int)
    ensures -1 <= k < |h|
  {
    if h == [] then -1 else if h[|h| - 1].t == t then |h| - 1 else When(h[..|h| - 1], t)
  }

  /** Of a pending timer that is its arming, and nothing happened to it since. */
  lemma {:induction false} WhenArmed(h: seq<Event>, t: nat)
    requires Pending(h, t)
    ensures When(h, t) >= 0 && h[When(h, t)] == Armed_(t) && forall i | When(h, t) < i < |h| :: h[i].t != t
  {
    if h[|h| - 1].t != t {
      WhenArmed(h[..|h| - 1], t);
      forall i | When(h, t) < i < |h| ensures h[i].t != t {
        assert i < |h| - 1 ==> h[..|h| - 1][i] == h[i];
      }
    }
  }

  lemma WhenAppended(h: seq<Event>, e: Event, t: nat)
    ensures When(h + [e], t) == if e.t == t then |h| else When(h, t)
  {
    assert (h + [e])[..|h|] == h;
  }

  // ----- the queue -----

  datatype Hardware = Stopped | Set(at: nat, from: nat)

  /** When the hardware fires, set at time `from` for a deadline: at once if it is past, and never further off than
      the hardware can count. */
  function FireAt(deadline: nat, from: nat): (at: nat)
    ensures from <= at <= from + MAX_DELTA && (deadline > from ==> from < at <= deadline)
    ensures at != deadline && deadline > from ==> at == from + MAX_DELTA
  {
    if deadline <= from then from else if deadline - from > MAX_DELTA then from + MAX_DELTA else deadline
  }

  ghost predicate Placed(ts: seq<Timer>, s: seq<nat>) {
    Known(ts, s) && forall k | 0 <= k < |s| :: ts[s[k]].heapIndex == k
  }

  ghost predicate PlacedBut(ts: seq<Timer>, s: seq<nat>, i: nat) {
    Known(ts, s) && forall k | 0 <= k < |s| && k != i :: ts[s[k]].heapIndex == k
  }

  /** The heap holds exactly the armed timers, in heap order, each knowing its place. */
  ghost predicate QueueOk(ts: seq<Timer>, s: seq<nat>, nextSeq: nat) {
    && Placed(ts, s) && Distinct(s) && Heap(ts, s)
    && (forall t: nat | t < |ts| :: ts[t].state == Armed <==> t in s)
    && (forall t | t in s :: ts[t].seqNo < nextSeq)
    && (forall t, u | t in s && u in s && t != u :: ts[t].seqNo != ts[u].seqNo)
  }

  /** The links from `c` on run through `rest`. */
  ghost predicate Chain(ts: seq<Timer>, c: int, rest: seq<nat>)
    decreases rest
  {
    if rest == [] then c == -1 else c == rest[0] && rest[0] < |ts| && Chain(ts, ts[rest[0]].next, rest[1..])
  }

  lemma {:induction false} ChainKept(ts: seq<Timer>, us: seq<Timer>, c: int, rest: seq<nat>)
    requires Chain(ts, c, rest) && |us| == |ts| && forall t | t in rest && t < |ts| :: us[t].next == ts[t].next
    ensures Chain(us, c, rest)
    decreases rest
  {
    if rest != [] {
      ChainKept(ts, us, ts[rest[0]].next, rest[1..]);
    }
  }

  /** Exactly the pending timers are queued or waiting to be run, the latter in this pass's batch. */
  ghost predicate StatesOk(ts: seq<Timer>, rest: seq<nat>, h: seq<Event>) {
    forall t: nat | t < |ts| :: (ts[t].state != Idle <==> Pending(h, t)) && (ts[t].state == Expired ==> t in rest)
  }

  /** Timers queued with a smaller number were armed before. */
  ghost predicate Aged(ts: seq<Timer>, h: seq<Event>) {
    forall t: nat, u: nat | t < |ts| && u < |ts| && ts[t].state == Armed == ts[u].state && ts[t].seqNo < ts[u].seqNo ::
      When(h, t) < When(h, u)
  }

  /** Arming gives the timer the largest number yet. */
  lemma AgedStep(ts: seq<Timer>, us: seq<Timer>, h: seq<Event>, e: Event)
    requires Aged(ts, h) && OnlyTimer(ts, us, e.t)
    requires if !e.Armed_? then us[e.t].state != Armed
             else forall u: nat | u < |ts| && ts[u].state == Armed && u != e.t :: ts[u].seqNo < us[e.t].seqNo
    ensures Aged(us, h + [e])
  {
    hide When;
    forall t: nat, u: nat | t < |us| && u < |us| && us[t].state == Armed == us[u].state && us[t].seqNo < us[u].seqNo
      ensures When(h + [e], t) < When(h + [e], u) {
      WhenAppended(h, e, t);
      WhenAppended(h, e, u);
    }
  }

  lemma LargestNumber(ts: seq<Timer>, s: seq<nat>, nextSeq: nat)
    requires QueueOk(ts, s, nextSeq)
    ensures forall u: nat | u < |ts| && ts[u].state == Armed :: ts[u].seqNo < nextSeq
  {
  }

  /** Apart from places in the heap, only timer `t` changed, and not its link. */
  ghost predicate OnlyTimer(ts: seq<Timer>, us: seq<Timer>, t: nat) {
    && |us| == |ts| && t < |ts| && us[t].next == ts[t].next
    && forall u: nat | u < |ts| && u != t :: us[u] == ts[u].(heapIndex := us[u].heapIndex)
  }

  lemma StatesStep(ts: seq<Timer>, us: seq<Timer>, rest: seq<nat>, h: seq<Event>, e: Event)
    requires StatesOk(ts, rest, h) && Lawful(h) && OnlyTimer(ts, us, e.t) && (e.Called? ==> Pending(h, e.t))
    requires us[e.t].state == if e.Armed_? then Armed else Idle
    ensures StatesOk(us, rest, h + [e]) && Lawful(h + [e])
  {
    hide Pending, Lawful;
    Append(h, e);
  }

  lemma ChainStep(ts: seq<Timer>, us: seq<Timer>, c: int, rest: seq<nat>, t: nat)
    requires Chain(ts, c, rest) && OnlyTimer(ts, us, t)
    ensures Chain(us, c, rest)
  {
    ChainKept(ts, us, c, rest);
  }

  ghost predicate HwOk(hw: Hardware, ts: seq<Timer>, s: seq<nat>)
    requires Known(ts, s)
  {
    if s == [] then hw == Stopped else hw.Set? && hw.at == FireAt(ts[s[0]].deadline, hw.from)
  }

  class TimerQueue {
    const slot: array<nat>
    var count: nat
    var timers: seq<Timer>
    var nextSeq: nat
    var expiring: bool
    var hw: Hardware
    var cursor: int
    ghost var rest: seq<nat>
    ghost var history: seq<Event>

    ghost predicate Shape()
      reads this, slot
    {
      slot.Length == HEAP_CAP && count <= HEAP_CAP
    }

    ghost function Items(): seq<nat>
      requires Shape()
      reads this, slot
    {
      slot[..count]
    }

    ghost predicate Valid()
      reads this, slot
    {
      && Shape() && QueueOk(timers, Items(), nextSeq)
      && Chain(timers, cursor, rest) && Distinct(rest) && (!expiring ==> rest == [])
      && Lawful(history) && StatesOk(timers, rest, history)
      && (!expiring ==> HwOk(hw, timers, Items())) && Aged(timers, history)
    }

    /** Writes a timer into a heap slot and its place into the timer. */
    method Place(i: nat, t: nat)
      requires i < slot.Length && t < |timers|
      modifies slot, this`timers
      ensures slot[..] == old(slot[..])[i := t] && timers == old(timers)[t := old(timers)[t].(heapIndex := i)]
    {
      slot[i] := t;
      timers := timers[t := timers[t].(heapIndex := i)];
    }

    method SiftUp(start: nat)
      requires Shape() && start < count && Distinct(Items()) && PlacedBut(timers, Items(), start)
               && HeapAbove(timers, Items(), start)
      modifies slot, this`timers
      ensures Shape() && Placed(timers, Items()) && Distinct(Items()) && Heap(timers, Items())
              && SameKeys(old(timers), timers)
      ensures forall x :: x in Items() <==> x in old(Items())
    {
      hide Before, Heap, HeapAbove, HeapBelow, Distinct;
      var t := slot[start];
      var i := start;
      ghost var s := Items();
      while i > 0
        invariant i < count && |s| == count && Items()[i := t] == s && s[i] == t
        invariant Distinct(s) && PlacedBut(timers, s, i) && HeapAbove(timers, s, i) && SameKeys(old(timers), timers)
        invariant forall x :: x in s <==> x in old(Items())
      {
        var parent := (i - 1) / 2;
        assert slot[parent] == Items()[parent] == s[parent];
        if !Before(timers, t, slot[parent]) {
          break;
        }
        SiftUpStep(timers, s, i);
        SwapKeeps(s, i, parent);
        StepKeys(timers, s, i, parent);
        ghost var items := Items();
        Place(i, slot[parent]);
        assert Items() == items[i := s[parent]];
        s := Swap(s, i, parent);
        i := parent;
      }
      SiftUpDone(timers, s, i);
      SettleKeys(timers, s, i);
      ghost var items := Items();
      Place(i, t);
      assert Items() == items[i := t] == s;
    }

    /** Which child of `i` comes first. `s` is the heap with `t` in the hole at `i`. */
    method EarlierChild(i: nat, ghost t: nat, ghost s: seq<nat>) returns (child: nat)
      requires Shape() && 2 * i + 1 < count && |s| == count && Items()[i := t] == s && Known(timers, s)
      ensures 2 * i < child < count && Parent(child) == i && slot[child] == s[child]
      ensures forall k | 0 < k < |s| && Parent(k) == i :: !Before(timers, s[k], s[child])
    {
      hide Before;
      child := 2 * i + 1;
      assert slot[child] == Items()[child] == s[child];
      if child + 1 < count {
        assert slot[child + 1] == Items()[child + 1] == s[child + 1];
        if Before(timers, slot[child + 1], slot[child]) {
          child := child + 1;
        }
      }
      FirstChild(timers, s, i, child);
    }

    method SiftDown(start: nat)
      requires Shape() && start < count && Distinct(Items()) && PlacedBut(timers, Items(), start)
               && HeapBelow(timers, Items(), start)
      modifies slot, this`timers
      ensures Shape() && Placed(timers, Items()) && Distinct(Items()) && Heap(timers, Items())
              && SameKeys(old(timers), timers)
      ensures forall x :: x in Items() <==> x in old(Items())
    {
      hide Before, Heap, HeapAbove, HeapBelow, Distinct;
      var t := slot[start];
      var i := start;
      ghost var s := Items();
      while true
        invariant i < count && |s| == count && Items()[i := t] == s && s[i] == t
        invariant Distinct(s) && PlacedBut(timers, s, i) && HeapBelow(timers, s, i) && SameKeys(old(timers), timers)
        invariant forall x :: x in s <==> x in old(Items())
        decreases count - i
      {
        Children(i, count);
        if 2 * i + 1 >= count {
          break;
        }
        var child := EarlierChild(i, t, s);
        if !Before(timers, slot[child], t) {
          NoLaterChild(timers, s, i, child);
          break;
        }
        SiftDownStep(timers, s, i, child);
        SwapKeeps(s, i, child);
        StepKeys(timers, s, i, child);
        ghost var items := Items();
        Place(i, slot[child]);
        assert Items() == items[i := s[child]];
        s := Swap(s, i, child);
        i := child;
      }
      SiftDownDone(timers, s, i);
      SettleKeys(timers, s, i);
      ghost var items := Items();
      Place(i, t);
      assert Items() == items[i := t] == s;
    }

    /** Puts a timer that is not queued into the heap. */
    method Insert(t: nat) returns (status: Status)
      requires Shape() && QueueOk(timers, Items(), nextSeq) && t < |timers| && t !in Items()
      modifies slot, this`timers, this`count, this`nextSeq
      ensures Shape() && QueueOk(timers, Items(), nextSeq)
      ensures status == ErrNoMemory <==> old(count) == HEAP_CAP
      ensures status == Ok || status == ErrNoMemory
      ensures status != Ok ==> timers == old(timers) && Items() == old(Items())
      ensures status == Ok ==> forall x :: x in Items() <==> x in old(Items()) || x == t
      ensures status == Ok ==>
              SameKeys(old(timers)[t := old(timers)[t].(seqNo := old(nextSeq), state := Armed)], timers)
    {
      hide Before, Heap, HeapAbove, HeapBelow, Placed, PlacedBut, Distinct, QueueOk, SameKeys;
      if count >= HEAP_CAP {
        return ErrNoMemory;
      }
      ghost var s, ts, q := Items(), timers, nextSeq;
      timers := timers[t := timers[t].(seqNo := nextSeq, state := Armed)];
      nextSeq := nextSeq + 1;
      var i := count;
      count := count + 1;
      Place(i, t);
      ghost var us := timers;
      assert Items() == s + [t];
      Appended(ts, timers, s, t, q);
      SiftUp(i);
      Queued(ts, us, timers, s, Items(), t, q);
      status := Ok;
    }

    /** Takes a queued timer out of the heap; its own fields stay, but for the place. */
    method Remove(t: nat)
      requires Shape() && QueueOk(timers, Items(), nextSeq) && t < |timers| && t in Items()
      modifies slot, this`timers, this`count
      ensures Shape() && count == old(count) - 1 && SameKeys(old(timers), timers)
      ensures Placed(timers, Items()) && Distinct(Items()) && Heap(timers, Items())
      ensures forall x :: x in Items() <==> x in old(Items()) && x != t
    {
      hide Before, Heap, HeapAbove, HeapBelow, Distinct;
      ghost var s, ts := Items(), timers;
      OwnPlace(ts, s, nextSeq, t);
      hide QueueOk, SameKeys;
      KeysSame(ts);
      var i := timers[t].heapIndex;
      var last := count - 1;
      var moved := slot[last];
      assert moved == s[last];
      RemovedIs(s, i);
      count := last;
      if i == last {
        assert Items() == s[..i] == Removed(s, i);
        ShorterHeap(ts, s);
        return;
      }
      RemovedHeap(ts, s, i);
      MovedKeys(ts, s, i);
      Place(i, moved);
      assert Items() == Removed(s, i);
      ghost var us := timers;
      SameKeysHeap(ts, timers, Removed(s, i));
      assert i > 0 ==> slot[Parent(i)] == Items()[Parent(i)] == s[Parent(i)];
      if i > 0 {
        KeysBefore(ts, timers, moved, s[Parent(i)]);
      }
      if i > 0 && Before(timers, moved, slot[(i - 1) / 2]) {
        SiftUp(i);
      } else {
        SiftDown(i);
      }
      KeysTrans(ts, us, timers);
    }

    /** Points the hardware at the earliest deadline, or stops it; not while timers are being run. */
    method Reprogram(now: nat)
      requires Shape() && Known(timers, Items())
      modifies this`hw
      ensures expiring ==> hw == old(hw)
      ensures !expiring ==> HwOk(hw, timers, Items())
    {
      if expiring {
        return;
      }
      if count == 0 {
        hw := Stopped;
        return;
      }
      assert slot[0] == Items()[0];
      var deadline := timers[slot[0]].deadline;
      var delta := if deadline <= now then 0 else deadline - now;
      hw := Set(now + if delta > MAX_DELTA then MAX_DELTA else delta, now);
    }

    /** Prepares a timer that is not queued. One that is waiting to be run in this pass will not be. */
    method InitTimer(t: nat)
      requires Valid() && t < |timers| && timers[t].state != Armed
      modifies this`timers, this`history
      ensures Valid() && history == old(history) + [Reset(t)]
      ensures timers == old(timers)[t := Timer(0, 0, 0, Idle, old(timers)[t].next, true)]
    {
      hide Before, Heap, Pending, Lawful, Distinct, HwOk, StatesOk, Chain, Aged;
      ghost var ts := timers;
      timers := timers[t := Timer(0, 0, 0, Idle, timers[t].next, true)];
      StatesStep(ts, timers, rest, history, Reset(t));
      AgedStep(ts, timers, history, Reset(t));
      history := history + [Reset(t)];
      IdleChange(ts, timers, Items(), nextSeq, t);
      ChainStep(ts, timers, cursor, rest, t);
      RootKept(hw, ts, timers, Items(), t);
    }

    /** Takes an armed timer out of the queue. */
    method Withdraw(t: nat)
      requires Shape() && QueueOk(timers, Items(), nextSeq) && t < |timers| && timers[t].state == Armed
      modifies slot, this`timers, this`count
      ensures Shape() && QueueOk(timers, Items(), nextSeq) && count == old(count) - 1
              && OnlyTimer(old(timers), timers, t)
      ensures timers[t] == old(timers)[t].(state := Idle, heapIndex := timers[t].heapIndex)
      ensures forall x :: x in Items() <==> x in old(Items()) && x != t
    {
      hide Before, Heap, Distinct;
      ghost var ts, s := timers, Items();
      Remove(t);
      QueueAfterRemove(ts, s, timers, Items(), nextSeq, t, Idle);
      timers := timers[t := timers[t].(state := Idle)];
    }

    /** Queues a timer that is not queued, for a new deadline. */
    method Enqueue(t: nat, deadline: nat) returns (status: Status)
      requires Shape() && QueueOk(timers, Items(), nextSeq) && t < |timers| && timers[t].state != Armed
      modifies slot, this`timers, this`count, this`nextSeq
      ensures Shape() && QueueOk(timers, Items(), nextSeq)
      ensures status == ErrNoMemory <==> old(count) == HEAP_CAP
      ensures status == Ok || status == ErrNoMemory
      ensures status != Ok ==> timers == old(timers) && Items() == old(Items())
      ensures status == Ok ==>
              OnlyTimer(old(timers), timers, t) && timers[t].deadline == deadline && timers[t].state == Armed
      ensures status == Ok ==> timers[t].ready == old(timers)[t].ready && timers[t].seqNo == old(nextSeq)
    {
      hide Before, Heap, Distinct;
      ghost var ts := timers;
      var oldDeadline := timers[t].deadline;
      timers := timers[t := timers[t].(deadline := deadline)];
      IdleChange(ts, timers, Items(), nextSeq, t);
      status := Insert(t);
      if status != Ok {
        timers := timers[t := timers[t].(deadline := oldDeadline)];
        assert timers == ts;
      }
    }

    /** Arms a timer, moving it if it was armed already. A refused timer is left unchanged. */
    method Arm(t: nat, deadline: nat, now: nat) returns (status: Status)
      requires Valid() && t < |timers|
      modifies slot, this`timers, this`count, this`nextSeq, this`hw, this`history
      ensures Valid()
      ensures status == ErrInvalid <==> !old(timers)[t].ready
      ensures status == ErrNoMemory <==> old(timers)[t].ready && old(timers)[t].state != Armed && old(count) == HEAP_CAP
      ensures status in {Ok, ErrInvalid, ErrNoMemory}
      ensures status != Ok ==> timers == old(timers) && history == old(history) && Items() == old(Items())
      ensures status == Ok ==> history == old(history) + [Armed_(t)] && OnlyTimer(old(timers), timers, t)
      ensures status == Ok ==> timers[t].deadline == deadline && timers[t].state == Armed
    {
      hide Before, Heap, Pending, Lawful, Distinct, HwOk, Chain, StatesOk, QueueOk, Aged;
      status := ErrInvalid;
      if !timers[t].ready {
        return;
      }
      var oldRoot := if count == 0 then -1 else slot[0];
      ghost var ts, s := timers, Items();
      QueueKnown(ts, s, nextSeq);
      LargestNumber(ts, s, nextSeq);
      if timers[t].state == Armed {
        Withdraw(t);
      }
      status := Enqueue(t, deadline);
      if status != Ok {
        return;
      }
      StatesStep(ts, timers, rest, history, Armed_(t));
      AgedStep(ts, timers, history, Armed_(t));
      history := history + [Armed_(t)];
      ChainStep(ts, timers, cursor, rest, t);
      QueueKnown(timers, Items(), nextSeq);
      if (if count == 0 then -1 else slot[0]) != oldRoot || oldRoot == t {
        Reprogram(now);
      } else {
        SameRoot(hw, ts, s, timers, Items());
      }
    }

    /** Makes sure the timer's callback does not run, if it has not started. */
    method Cancel(t: nat, now: nat) returns (status: Status)
      requires Valid() && t < |timers|
      modifies slot, this`timers, this`count, this`hw, this`history
      ensures Valid()
      ensures status == Ok <==> old(timers)[t].state != Idle
      ensures status == Ok || status == ErrNotFound
      ensures status != Ok ==> timers == old(timers) && history == old(history) && Items() == old(Items())
      ensures status == Ok ==>
              OnlyTimer(old(timers), timers, t) && timers[t].state == Idle && history == old(history) + [Cancelled(t)]
    {
      hide Before, Heap, Pending, Lawful, Distinct, HwOk, Chain, StatesOk, QueueOk, Aged;
      status := ErrNotFound;
      ghost var ts, s := timers, Items();
      QueueKnown(ts, s, nextSeq);
      if timers[t].state == Armed {
        ArmedQueued(ts, s, nextSeq, t);
        var wasRoot := slot[0] == t;
        Withdraw(t);
        QueueKnown(timers, Items(), nextSeq);
        if wasRoot {
          Reprogram(now);
        } else {
          RootStays(hw, ts, s, timers, Items(), nextSeq, t);
        }
        status := Ok;
      } else if timers[t].state == Expired {
        timers := timers[t := timers[t].(state := Idle)];
        IdleChange(ts, timers, s, nextSeq, t);
        NotQueued(ts, s, nextSeq, t);
        QueueKnown(timers, s, nextSeq);
        RootKept(hw, ts, timers, s, t);
        status := Ok;
      }
      if status == Ok {
        StatesStep(ts, timers, rest, history, Cancelled(t));
        AgedStep(ts, timers, history, Cancelled(t));
        history := history + [Cancelled(t)];
        ChainStep(ts, timers, cursor, rest, t);
      }
    }

    /** The timer interrupt, first part: everything due leaves the heap for the batch, earliest first. */
    method BeginExpiry(now: nat)
      requires Valid() && !expiring
      modifies slot, this`timers, this`count, this`expiring, this`cursor, this`rest
      ensures Valid() && expiring && |timers| == |old(timers)|
      ensures forall t: nat :: t in rest <==>
              t < |timers| && old(timers)[t].state == Armed && old(timers)[t].deadline <= now
      ensures InOrder(old(timers), rest) && FirstArmedFirst(old(timers), rest, history)
      ensures forall t: nat | t < |timers| :: Moved(old(timers)[t], timers[t], t in rest)
    {
      hide Before, Heap, Pending, Lawful, Distinct, Chain, StatesOk, QueueOk, HwOk, Collecting, Aged;
      expiring := true;
      ghost var ts, s := timers, Items();
      cursor, rest := -1, [];
      var tail := -1;
      NothingCollected(ts, s, nextSeq, now);
      while true
        invariant expiring && Shape() && Collecting(ts, s, timers, Items(), nextSeq, rest, cursor, tail, now)
        decreases count
      {
        CollectingFacts(ts, s, timers, Items(), nextSeq, rest, cursor, tail, now);
        if count == 0 {
          break;
        }
        assert slot[0] == Items()[0];
        if timers[slot[0]].deadline > now {
          break;
        }
        var t := slot[0];
        ghost var us, items := timers, Items();
        Remove(t);
        ghost var ws := timers;
        timers := timers[t := timers[t].(state := Expired, next := -1)];
        CollectStep(ts, s, us, items, ws, Items(), nextSeq, rest, cursor, tail, now, t);
        if tail < 0 {
          cursor := t;
        } else {
          timers := timers[tail := timers[tail].(next := t)];
        }
        tail := t;
        rest := rest + [t];
      }
      AllDue(ts, s, timers, Items(), nextSeq, rest, cursor, tail, now);
      StatesCollected(ts, timers, rest, history, nextSeq, s);
      AgedCollected(ts, timers, rest, history);
    }

    /** Second part, once for each timer of the batch: its callback runs if it is still waiting. The callback may then
        arm, cancel and reset timers before the next one's turn. */
    method RunNext() returns (called: bool, t: nat)
      requires Valid() && cursor >= 0
      modifies this`timers, this`cursor, this`rest, this`history
      ensures Valid() && rest == old(rest)[1..] && t == old(rest)[0] == old(cursor) && |timers| == |old(timers)|
      ensures called <==> old(timers)[t].state == Expired
      ensures called ==>
                timers == old(timers)[t := old(timers)[t].(state := Idle)] && history == old(history) + [Called(t)]
      ensures !called ==> timers == old(timers) && history == old(history)
    {
      hide Before, Heap, Pending, Lawful, HwOk, Aged;
      ghost var ts := timers;
      t := cursor;
      var next := timers[t].next;
      called := timers[t].state == Expired;
      RestOf(rest);
      if called {
        timers := timers[t := timers[t].(state := Idle)];
        IdleChange(ts, timers, Items(), nextSeq, t);
        StatesStep(ts, timers, rest, history, Called(t));
        AgedStep(ts, timers, history, Called(t));
        history := history + [Called(t)];
        ChainStep(ts, timers, cursor, rest, t);
        RootKept(hw, ts, timers, Items(), t);
      }
      cursor := next;
      rest := rest[1..];
    }

    /** Last part: the hardware is pointed at what is now the earliest timer. */
    method EndExpiry(now: nat)
      requires Valid() && expiring && cursor < 0
      modifies this`expiring, this`hw
      ensures Valid() && !expiring
    {
      hide Before, Heap, Pending, Lawful, Distinct, HwOk;
      assert rest == [];
      expiring := false;
      Reprogram(now);
    }

    constructor (n: nat)
      ensures Valid() && fresh(slot) && |timers| == n && !expiring && history == []
      ensures forall t | 0 <= t < n :: timers[t].state == Idle && !timers[t].ready
    {
      slot := new nat[HEAP_CAP];
      count, nextSeq, expiring, hw, cursor := 0, 0, false, Stopped, -1;
      timers := seq(n, _ => Timer(0, 0, 0, Idle, -1, false));
      rest, history := [], [];
    }
  }

  /** An expired timer only changed its state, its link and its place. */
  ghost predicate Moved(t: Timer, u: Timer, due: bool) {
    u == t.(heapIndex := u.heapIndex, state := if due then Expired else t.state, next := u.next)
  }

  ghost predicate InOrder(ts: seq<Timer>, rest: seq<nat>) {
    Known(ts, rest) && forall i, j | 0 <= i < j < |rest| :: Before(ts, rest[i], rest[j])
  }

  /** Earlier deadlines come first, and of equal ones the one that was armed first. */
  ghost predicate FirstArmedFirst(ts: seq<Timer>, rest: seq<nat>, h: seq<Event>)
    requires Known(ts, rest)
  {
    forall i, j | 0 <= i < j < |rest| ::
      || ts[rest[i]].deadline < ts[rest[j]].deadline
      || (ts[rest[i]].deadline == ts[rest[j]].deadline && When(h, rest[i]) < When(h, rest[j]))
  }

  lemma AgedCollected(ts: seq<Timer>, us: seq<Timer>, rest: seq<nat>, h: seq<Event>)
    requires Aged(ts, h) && |us| == |ts| && InOrder(ts, rest)
    requires forall t | t in rest :: t < |ts| && ts[t].state == Armed
    requires forall t: nat | t < |ts| :: Moved(ts[t], us[t], t in rest)
    ensures Aged(us, h) && FirstArmedFirst(ts, rest, h)
  {
    hide When;
    forall i, j | 0 <= i < j < |rest|
      ensures ts[rest[i]].deadline < ts[rest[j]].deadline
              || (ts[rest[i]].deadline == ts[rest[j]].deadline && When(h, rest[i]) < When(h, rest[j])) {
      assert rest[i] in rest && rest[j] in rest && Before(ts, rest[i], rest[j]);
    }
    forall t: nat, u: nat | t < |us| && u < |us| && us[t].state == Armed == us[u].state && us[t].seqNo < us[u].seqNo
      ensures When(h, t) < When(h, u) {
      assert Moved(ts[t], us[t], t in rest) && Moved(ts[u], us[u], u in rest);
    }
  }

  /** Part of the queue `s` of `ts` has been moved to `rest`: the earliest timers, in order, all due, and linked. */
  ghost predicate Collecting(ts: seq<Timer>, s: seq<nat>, us: seq<Timer>, r: seq<nat>, nextSeq: nat, rest: seq<nat>,
      head: int, tail: int, now: nat) {
    && QueueOk(ts, s, nextSeq) && QueueOk(us, r, nextSeq) && |us| == |ts|
    && (forall t: nat | t < |ts| :: Moved(ts[t], us[t], t in rest))
    && (forall x :: x in s <==> x in rest || x in r)
    && InOrder(ts, rest) && (forall x | x in rest :: ts[x].deadline <= now)
    && (forall x, y | x in rest && y in r :: Before(ts, x, y))
    && Chain(us, head, rest) && tail == if rest == [] then -1 else rest[|rest| - 1]
  }

  lemma NothingCollected(ts: seq<Timer>, s: seq<nat>, nextSeq: nat, now: nat)
    requires QueueOk(ts, s, nextSeq)
    ensures Collecting(ts, s, ts, s, nextSeq, [], -1, -1, now)
  {
    hide Before, Heap, QueueOk;
  }

  lemma CollectingFacts(ts: seq<Timer>, s: seq<nat>, us: seq<Timer>, r: seq<nat>, nextSeq: nat, rest: seq<nat>,
      head: int, tail: int, now: nat)
    requires Collecting(ts, s, us, r, nextSeq, rest, head, tail, now)
    ensures QueueOk(us, r, nextSeq) && Known(us, r) && |us| == |ts| && tail < |us| && (rest != [] <==> tail >= 0)
    ensures r != [] ==> r[0] in r
  {
    hide Before, Heap;
    assert rest != [] ==> rest[|rest| - 1] in rest;
  }

  /** The root joins the batch at its end. */
  lemma CollectStep(ts: seq<Timer>, s: seq<nat>, us: seq<Timer>, r: seq<nat>, ws: seq<Timer>, r': seq<nat>,
      nextSeq: nat,
                    rest: seq<nat>, head: int, tail: int, now: nat, t: nat)
    requires Collecting(ts, s, us, r, nextSeq, rest, head, tail, now) && r != [] && t == r[0] && t < |us|
             && us[t].deadline <= now
    requires SameKeys(us, ws) && Placed(ws, r') && Distinct(r') && Heap(ws, r') && forall x :: x in r' <==>
             x in r && x != t
    ensures tail < |us|
    ensures var vs := ws[t := ws[t].(state := Expired, next := -1)];
            var vs' := if tail < 0 then vs else vs[tail := vs[tail].(next := t)];
            Collecting(ts, s, vs', r', nextSeq, rest + [t], if tail < 0 then t else head, t, now)
  {
    hide Before, Heap, QueueOk, Chain, Distinct, Known;
    CollectingFacts(ts, s, us, r, nextSeq, rest, head, tail, now);
    var vs := ws[t := ws[t].(state := Expired, next := -1)];
    var vs' := if tail < 0 then vs else vs[tail := vs[tail].(next := t)];
    NotInRest(ts, s, us, r, nextSeq, rest, head, tail, now, t);
    CollectQueue(us, r, ws, r', nextSeq, t, tail);
    CollectOrder(ts, s, us, r, nextSeq, rest, head, tail, now, t);
    OrderDistinct(ts, rest);
    forall k | 0 <= k < |rest| - 1 ensures rest[k] < |us| ==> vs'[rest[k]].next == us[rest[k]].next {
      NotLast(rest, k);
    }
    ChainAppend(us, vs', head, rest, t);
    assert forall x :: x in rest + [t] <==> x in rest || x == t;
    forall u: nat | u < |ts| ensures Moved(ts[u], vs'[u], u in rest + [t]) {
      assert Moved(ts[u], us[u], u in rest);
    }
  }

  lemma OrderDistinct(ts: seq<Timer>, rest: seq<nat>)
    requires InOrder(ts, rest)
    ensures Distinct(rest)
  {
  }

  lemma NotLast(rest: seq<nat>, k: nat)
    requires Distinct(rest) && k < |rest| - 1
    ensures rest[k] != rest[|rest| - 1] && rest[k] in rest
  {
  }

  lemma NotInRest(ts: seq<Timer>, s: seq<nat>, us: seq<Timer>, r: seq<nat>, nextSeq: nat, rest: seq<nat>, head: int,
      tail: int, now: nat, t: nat)
    requires Collecting(ts, s, us, r, nextSeq, rest, head, tail, now) && t in r
    ensures t !in rest && t in s && t < |ts| && us[t].state == Armed && ts[t].state == Armed
            && us[t].deadline == ts[t].deadline
    ensures tail >= 0 ==> tail !in r && tail != t && us[tail].state == Expired
  {
    hide Before, Heap, Chain, Distinct;
    assert Moved(ts[t], us[t], t in rest);
    if tail >= 0 {
      assert rest[|rest| - 1] in rest;
      assert Moved(ts[tail], us[tail], tail in rest);
    }
  }

  lemma CollectQueue(us: seq<Timer>, r: seq<nat>, ws: seq<Timer>, r': seq<nat>, nextSeq: nat, t: nat, tail: int)
    requires QueueOk(us, r, nextSeq) && t in r && t < |us| && SameKeys(us, ws) && Placed(ws, r') && Distinct(r')
             && Heap(ws, r')
    requires (forall x :: x in r' <==> x in r && x != t) && tail < |us| && (tail >= 0 ==> us[tail].state == Expired)
    ensures var vs := ws[t := ws[t].(state := Expired, next := -1)];
            QueueOk(if tail < 0 then vs else vs[tail := vs[tail].(next := t)], r', nextSeq)
  {
    hide Before, Heap, QueueOk, Distinct, Placed;
    QueueAfterRemove(us, r, ws, r', nextSeq, t, Expired);
    var xs := ws[t := ws[t].(state := Expired)];
    var vs := ws[t := ws[t].(state := Expired, next := -1)];
    IdleChange(xs, vs, r', nextSeq, t);
    if tail >= 0 {
      IdleChange(vs, vs[tail := vs[tail].(next := t)], r', nextSeq, tail);
    }
  }

  lemma CollectOrder(ts: seq<Timer>, s: seq<nat>, us: seq<Timer>, r: seq<nat>, nextSeq: nat, rest: seq<nat>, head: int,
      tail: int, now: nat, t: nat)
    requires Collecting(ts, s, us, r, nextSeq, rest, head, tail, now) && r != [] && t == r[0]
    ensures InOrder(ts, rest + [t]) && forall y | y in r && y != t :: y < |ts| && Before(ts, t, y)
  {
    hide Chain, Heap, Distinct;
    assert t in r;
    NotInRest(ts, s, us, r, nextSeq, rest, head, tail, now, t);
    forall y | y in r && y != t ensures y < |ts| && Before(ts, t, y) {
      var k :| 0 <= k < |r| && r[k] == y;
      RootFirst(us, r, k);
      NotInRest(ts, s, us, r, nextSeq, rest, head, tail, now, y);
      assert Moved(ts[y], us[y], y in rest) && Moved(ts[t], us[t], t in rest);
    }
    var all := rest + [t];
    forall i, j | 0 <= i < j < |all| ensures all[i] < |ts| && all[j] < |ts| && Before(ts, all[i], all[j]) {
      assert all[i] in rest;
    }
  }

  lemma {:induction false} ChainAppend(us: seq<Timer>, vs: seq<Timer>, c: int, rest: seq<nat>, t: nat)
    requires Chain(us, c, rest) && |vs| == |us| && t < |us| && t !in rest && vs[t].next == -1
    requires rest != [] ==> rest[|rest| - 1] < |us| && vs[rest[|rest| - 1]].next == t
    requires forall k | 0 <= k < |rest| - 1 :: rest[k] < |us| ==> vs[rest[k]].next == us[rest[k]].next
    ensures Chain(vs, if rest == [] then t else c, rest + [t])
    decreases rest
  {
    if rest == [] {
      assert [t][1..] == [];
    } else if |rest| == 1 {
      assert (rest + [t])[1..] == [t];
      assert [t][1..] == [];
    } else {
      assert (rest + [t])[1..] == rest[1..] + [t];
      ChainAppend(us, vs, us[rest[0]].next, rest[1..], t);
    }
  }

  /** When the pass stops collecting, the batch is exactly what was due. */
  lemma AllDue(ts: seq<Timer>, s: seq<nat>, us: seq<Timer>, r: seq<nat>, nextSeq: nat, rest: seq<nat>, head: int,
      tail: int, now: nat)
    requires Collecting(ts, s, us, r, nextSeq, rest, head, tail, now)
             && (r != [] ==> r[0] < |us| && us[r[0]].deadline > now)
    ensures forall t: nat :: t in rest <==> t < |ts| && ts[t].state == Armed && ts[t].deadline <= now
    ensures Distinct(rest) && Chain(us, head, rest) && InOrder(ts, rest)
    ensures |us| == |ts| && forall t: nat | t < |ts| :: Moved(ts[t], us[t], t in rest)
  {
    hide Chain;
    forall t: nat ensures t in rest <==> t < |ts| && ts[t].state == Armed && ts[t].deadline <= now {
      if t in r {
        NotInRest(ts, s, us, r, nextSeq, rest, head, tail, now, t);
        var k :| 0 <= k < |r| && r[k] == t;
        RootFirst(us, r, k);
      }
    }
  }

  lemma StatesCollected(ts: seq<Timer>, us: seq<Timer>, rest: seq<nat>, h: seq<Event>, nextSeq: nat, s: seq<nat>)
    requires StatesOk(ts, [], h) && |us| == |ts| && (forall t: nat | t < |ts| :: Moved(ts[t], us[t], t in rest))
    requires forall t | t in rest :: t < |ts| && ts[t].state == Armed
    ensures StatesOk(us, rest, h)
  {
    hide Pending;
    forall t: nat | t < |ts| ensures (us[t].state != Idle <==> Pending(h, t))
      && (us[t].state == Expired ==> t in rest) {
      assert Moved(ts[t], us[t], t in rest);
    }
  }

  lemma RestOf(rest: seq<nat>)
    requires Distinct(rest) && rest != []
    ensures Distinct(rest[1..]) && forall x :: x in rest[1..] <==> x in rest && x != rest[0]
  {
    assert rest == [rest[0]] + rest[1..];
  }

  lemma QueueKnown(ts: seq<Timer>, s: seq<nat>, nextSeq: nat)
    requires QueueOk(ts, s, nextSeq)
    ensures Known(ts, s)
  {
  }

  lemma ArmedQueued(ts: seq<Timer>, s: seq<nat>, nextSeq: nat, t: nat)
    requires QueueOk(ts, s, nextSeq) && t < |ts| && ts[t].state == Armed
    ensures t in s && s != []
  {
  }

  lemma NotQueued(ts: seq<Timer>, s: seq<nat>, nextSeq: nat, t: nat)
    requires QueueOk(ts, s, nextSeq) && t < |ts| && ts[t].state != Armed
    ensures t !in s
  {
  }

  /** Changing a timer that is not queued, without arming it, keeps the queue. */
  lemma IdleChange(ts: seq<Timer>, us: seq<Timer>, s: seq<nat>, nextSeq: nat, t: nat)
    requires QueueOk(ts, s, nextSeq) && t < |ts| == |us| && ts[t].state != Armed && us[t].state != Armed
    requires forall u: nat | u < |ts| && u != t :: us[u] == ts[u]
    ensures QueueOk(us, s, nextSeq)
  {
    hide Before, Heap, Distinct;
    OtherKeys(ts, us, s, t);
  }

  lemma RootKept(hw: Hardware, ts: seq<Timer>, us: seq<Timer>, s: seq<nat>, t: nat)
    requires Known(ts, s) && Known(us, s) && t < |ts| == |us| && t !in s && forall u: nat | u < |ts| && u != t ::
             us[u] == ts[u]
    ensures HwOk(hw, us, s) == HwOk(hw, ts, s)
  {
  }

  lemma SameRoot(hw: Hardware, ts: seq<Timer>, s: seq<nat>, us: seq<Timer>, r: seq<nat>)
    requires Known(ts, s) && Known(us, r) && |us| == |ts|
    requires (if r == [] then -1 else r[0]) == (if s == [] then -1 else s[0])
    requires s != [] ==> us[s[0]].deadline == ts[s[0]].deadline
    ensures HwOk(hw, us, r) == HwOk(hw, ts, s)
  {
  }

  /** Removing a timer that is not the root leaves the root where it is. */
  lemma RootStays(hw: Hardware, ts: seq<Timer>, s: seq<nat>, us: seq<Timer>, r: seq<nat>, nextSeq: nat, t: nat)
    requires QueueOk(ts, s, nextSeq) && QueueOk(us, r, nextSeq) && t in s && s[0] != t && |us| == |ts|
    requires (forall x :: x in r <==> x in s && x != t)
    requires forall u: nat | u < |ts| && u != t :: us[u].deadline == ts[u].deadline && us[u].seqNo == ts[u].seqNo
    ensures HwOk(hw, us, r) == HwOk(hw, ts, s)
  {
    assert s[0] in s && s[0] in r;
    assert r[0] in r && r[0] in s;
    var k :| 0 <= k < |s| && s[k] == r[0];
    var j :| 0 <= j < |r| && r[j] == s[0];
    RootFirst(ts, s, k);
    RootFirst(us, r, j);
    assert r[0] == s[0];
  }

  lemma QueueAfterRemove(ts: seq<Timer>, s: seq<nat>, us: seq<Timer>, r: seq<nat>, nextSeq: nat, t: nat,
      state: TimerState)
    requires QueueOk(ts, s, nextSeq) && t in s && t < |ts| && SameKeys(ts, us) && Placed(us, r) && Distinct(r)
             && Heap(us, r) && state != Armed
    requires forall x :: x in r <==> x in s && x != t
    ensures QueueOk(us[t := us[t].(state := state)], r, nextSeq)
  {
    hide Before, Heap, Distinct;
    OtherKeys(us, us[t := us[t].(state := state)], r, t);
  }

  lemma KeysBefore(ts: seq<Timer>, us: seq<Timer>, a: nat, b: nat)
    requires SameKeys(ts, us) && a < |ts| && b < |ts|
    ensures Before(ts, a, b) == Before(us, a, b)
  {
  }

  lemma KeysSame(ts: seq<Timer>)
    ensures SameKeys(ts, ts)
  {
  }

  lemma KeysTrans(ts: seq<Timer>, us: seq<Timer>, vs: seq<Timer>)
    requires SameKeys(ts, us) && SameKeys(us, vs)
    ensures SameKeys(ts, vs)
  {
  }

  lemma OwnPlace(ts: seq<Timer>, s: seq<nat>, nextSeq: nat, t: nat)
    requires QueueOk(ts, s, nextSeq) && t in s
    ensures t < |ts| && ts[t].heapIndex < |s| && s[ts[t].heapIndex] == t && Known(ts, s) && Placed(ts, s) && Distinct(s)
            && Heap(ts, s)
  {
  }

  /** The last timer, told its new place, is where it should be once the others settle. */
  lemma MovedKeys(ts: seq<Timer>, s: seq<nat>, i: nat)
    requires Placed(ts, s) && Distinct(s) && i < |s| - 1
    ensures var m := s[|s| - 1]; var us := ts[m := ts[m].(heapIndex := i)];
            SameKeys(ts, us) && PlacedBut(us, Removed(s, i), i)
  {
  }

  lemma ShorterHeap(ts: seq<Timer>, s: seq<nat>)
    requires Placed(ts, s) && Heap(ts, s) && s != []
    ensures Placed(ts, s[..|s| - 1]) && Heap(ts, s[..|s| - 1])
  {
    var r := s[..|s| - 1];
    forall k | 0 < k < |r| ensures !Before(ts, r[k], r[Parent(k)]) {
      assert !Before(ts, s[k], s[Parent(k)]);
    }
  }

  /** A timer put behind the last one: everything is in order but for its place in the heap. */
  lemma Appended(ts: seq<Timer>, us: seq<Timer>, s: seq<nat>, t: nat, nextSeq: nat)
    requires QueueOk(ts, s, nextSeq) && t < |ts| == |us| && t !in s && us[t].heapIndex == |s|
    requires forall u: nat | u < |ts| && u != t :: us[u] == ts[u]
    ensures Distinct(s + [t]) && PlacedBut(us, s + [t], |s|) && HeapAbove(us, s + [t], |s|)
  {
    hide Heap, HeapAbove, Before;
    OtherKeys(ts, us, s, t);
    AppendedHeap(us, s, t);
  }

  /** Once it is sifted into place the queue is in order again. */
  lemma Queued(ts: seq<Timer>, us: seq<Timer>, vs: seq<Timer>, s: seq<nat>, r: seq<nat>, t: nat, nextSeq: nat)
    requires QueueOk(ts, s, nextSeq) && t < |ts| && t !in s
    requires us == ts[t := ts[t].(seqNo := nextSeq, state := Armed, heapIndex := |s|)] && SameKeys(us, vs)
    requires Placed(vs, r) && Distinct(r) && Heap(vs, r) && forall x :: x in r <==> x in s + [t]
    ensures QueueOk(vs, r, nextSeq + 1) && SameKeys(ts[t := ts[t].(seqNo := nextSeq, state := Armed)], vs)
  {
    hide Heap, Distinct, Before;
  }

  /** Changing a timer that is not in the heap does not disturb it. */
  lemma OtherKeys(ts: seq<Timer>, us: seq<Timer>, s: seq<nat>, t: nat)
    requires Placed(ts, s) && Heap(ts, s) && t < |ts| == |us| && t !in s && forall u: nat | u < |ts| && u != t ::
             us[u] == ts[u]
    ensures Placed(us, s) && Heap(us, s)
  {
    forall k | 0 <= k < |s| ensures us[s[k]] == ts[s[k]] {
      assert s[k] in s;
    }
    forall k | 0 < k < |s| ensures !Before(us, s[k], s[Parent(k)]) {
      assert !Before(ts, s[k], s[Parent(k)]);
    }
  }

  lemma Children(i: nat, n: nat)
    ensures forall k | 0 < k < n && Parent(k) == i :: k == 2 * i + 1 || k == 2 * i + 2
    ensures Parent(2 * i + 1) == i == Parent(2 * i + 2)
  {
  }

  /** The chosen child comes first among the children. */
  lemma FirstChild(ts: seq<Timer>, s: seq<nat>, i: nat, c: nat)
    requires Known(ts, s) && i < |s| && 2 * i + 1 <= c <= 2 * i + 2 && c < |s|
    requires c == 2 * i + 2 ==> Before(ts, s[c], s[c - 1])
    requires c == 2 * i + 1 && c + 1 < |s| ==> !Before(ts, s[c + 1], s[c])
    ensures Parent(c) == i && forall k | 0 < k < |s| && Parent(k) == i :: !Before(ts, s[k], s[c])
  {
    forall k | 0 < k < |s| && Parent(k) == i ensures !Before(ts, s[k], s[c]) {
      NotBoth(ts, s[k], s[c]);
    }
  }

  lemma NoLaterChild(ts: seq<Timer>, s: seq<nat>, i: nat, c: nat)
    requires Known(ts, s) && i < |s| && c < |s| && !Before(ts, s[c], s[i])
    requires forall k | 0 < k < |s| && Parent(k) == i :: !Before(ts, s[k], s[c])
    ensures forall k | 0 < k < |s| && Parent(k) == i :: !Before(ts, s[k], s[i])
  {
    forall k | 0 < k < |s| && Parent(k) == i ensures !Before(ts, s[k], s[i]) {
      NotBeforeTrans(ts, s[k], s[c], s[i]);
    }
  }

  /** Moving a timer to another slot and noting the slot keeps every other place right. */
  lemma StepKeys(ts: seq<Timer>, s: seq<nat>, i: nat, j: nat)
    requires Known(ts, s) && Distinct(s) && PlacedBut(ts, s, i) && i < |s| && j < |s| && i != j
    ensures var us := ts[s[j] := ts[s[j]].(heapIndex := i)];
            && SameKeys(ts, us) && PlacedBut(us, Swap(s, i, j), j)
            && (forall k: nat :: Known(ts, Swap(s, i, j)) && HeapAbove(ts, Swap(s, i, j), k) ==>
               HeapAbove(us, Swap(s, i, j), k))
            && (forall k: nat :: Known(ts, Swap(s, i, j)) && HeapBelow(ts, Swap(s, i, j), k) ==>
               HeapBelow(us, Swap(s, i, j), k))
  {
    hide Before, HeapAbove, HeapBelow;
    var us := ts[s[j] := ts[s[j]].(heapIndex := i)];
    SwapKnown(ts, s, i, j);
    SameKeysHeap(ts, us, Swap(s, i, j));
  }

  lemma SettleKeys(ts: seq<Timer>, s: seq<nat>, i: nat)
    requires Known(ts, s) && Distinct(s) && PlacedBut(ts, s, i) && i < |s| && Heap(ts, s)
    ensures var us := ts[s[i] := ts[s[i]].(heapIndex := i)]; SameKeys(ts, us) && Placed(us, s) && Heap(us, s)
  {
    hide Before, Heap;
    SameKeysHeap(ts, ts[s[i] := ts[s[i]].(heapIndex := i)], s);
  }
}
