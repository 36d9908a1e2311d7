/** The order of timers and what a binary heap of them guarantees. */
module TimerHeap {
  import opened Sequences

  datatype TimerState = Idle | Armed | Expired

  /** A timer in its owner's storage; `next` is the expiry pass's link to another timer, -1 for none, and `ready`
      says that it has a callback. */
  datatype Timer = Timer(deadline: nat, seqNo: nat, heapIndex: nat, state: TimerState, next: int, ready: bool)

  /** Earlier deadline first, equal deadlines in arming order. */
  predicate Before(ts: seq<Timer>, a: nat, b: nat)
    requires a < |ts| && b < |ts|
  {
    ts[a].deadline < ts[b].deadline || (ts[a].deadline == ts[b].deadline && ts[a].seqNo < ts[b].seqNo)
  }

  ghost predicate Known(ts: seq<Timer>, s: seq<nat>) {
    forall k | 0 <= k < |s| :: s[k] < |ts|
  }

  function Parent(i: nat): nat
    requires i > 0
  {
    (i - 1) / 2
  }

  /** No timer comes before its parent. */
  ghost predicate Heap(ts: seq<Timer>, s: seq<nat>)
    requires Known(ts, s)
  {
    forall k | 0 < k < |s| :: !Before(ts, s[k], s[Parent(k)])
  }

  /** A heap but for the timer at `i`, which may come before its parent. */
  ghost predicate HeapAbove(ts: seq<Timer>, s: seq<nat>, i: nat)
    requires Known(ts, s)
  {
    && i < |s|
    && (forall k | 0 < k < |s| && k != i :: !Before(ts, s[k], s[Parent(k)]))
    && (forall k | 0 < k < |s| && i > 0 && Parent(k) == i :: !Before(ts, s[k], s[Parent(i)]))
  }

  /** A heap but for the timer at `i`, which may come after its children. */
  ghost predicate HeapBelow(ts: seq<Timer>, s: seq<nat>, i: nat)
    requires Known(ts, s)
  {
    && i < |s|
    && (forall k | 0 < k < |s| && Parent(k) != i :: !Before(ts, s[k], s[Parent(k)]))
    && (forall k | 0 < k < |s| && i > 0 && Parent(k) == i :: !Before(ts, s[k], s[Parent(i)]))
  }

  ghost function Swap(s: seq<nat>, i: nat, j: nat): seq<nat>
    requires i < |s| && j < |s|
  {
    s[i := s[j]][j := s[i]]
  }

  lemma NotBeforeTrans(ts: seq<Timer>, a: nat, b: nat, c: nat)
    requires a < |ts| && b < |ts| && c < |ts| && !Before(ts, a, b) && !Before(ts, b, c)
    ensures !Before(ts, a, c)
  {
  }

  lemma NotBoth(ts: seq<Timer>, a: nat, b: nat)
    requires a < |ts| && b < |ts|
    ensures !Before(ts, a, b) || !Before(ts, b, a)
  {
  }

  lemma SwapKnown(ts: seq<Timer>, s: seq<nat>, i: nat, j: nat)
    requires Known(ts, s) && i < |s| && j < |s|
    ensures Known(ts, Swap(s, i, j))
  {
  }

  lemma SwapKeeps(s: seq<nat>, i: nat, j: nat)
    requires i < |s| && j < |s| && Distinct(s)
    ensures Distinct(Swap(s, i, j)) && forall x :: x in Swap(s, i, j) <==> x in s
  {
    var r := Swap(s, i, j);
    forall x ensures x in r <==> x in s {
      if x in s {
        var k :| 0 <= k < |s| && s[k] == x;
        assert r[if k == i then j else if k == j then i else k] == x;
      }
      if x in r {
        var k :| 0 <= k < |r| && r[k] == x;
        assert s[if k == i then j else if k == j then i else k] == x;
      }
    }
  }

  /** One step towards the root. */
  lemma SiftUpStep(ts: seq<Timer>, s: seq<nat>, i: nat)
    requires Known(ts, s) && 0 < i && HeapAbove(ts, s, i) && Before(ts, s[i], s[Parent(i)])
    ensures Known(ts, Swap(s, i, Parent(i))) && HeapAbove(ts, Swap(s, i, Parent(i)), Parent(i))
  {
    hide Before;
    var p := Parent(i);
    var r := Swap(s, i, p);
    SwapKnown(ts, s, i, p);
    NotBoth(ts, s[i], s[p]);
    forall k | 0 < k < |r| && k != p ensures !Before(ts, r[k], r[Parent(k)]) {
      if k != i && Parent(k) == p {
        NotBeforeTrans(ts, s[k], s[p], s[i]);
      }
    }
    forall k | 0 < k < |r| && p > 0 && Parent(k) == p ensures !Before(ts, r[k], r[Parent(p)]) {
      if k != i {
        NotBeforeTrans(ts, s[k], s[p], s[Parent(p)]);
      }
    }
  }

  lemma SiftUpDone(ts: seq<Timer>, s: seq<nat>, i: nat)
    requires Known(ts, s) && HeapAbove(ts, s, i) && (i == 0 || !Before(ts, s[i], s[Parent(i)]))
    ensures Heap(ts, s)
  {
  }

  /** One step towards the leaves, with the child that comes first. */
  lemma SiftDownStep(ts: seq<Timer>, s: seq<nat>, i: nat, c: nat)
    requires Known(ts, s) && HeapBelow(ts, s, i) && 0 < c < |s| && Parent(c) == i && Before(ts, s[c], s[i])
    requires forall k | 0 < k < |s| && Parent(k) == i :: !Before(ts, s[k], s[c])
    ensures Known(ts, Swap(s, i, c)) && HeapBelow(ts, Swap(s, i, c), c)
  {
    hide Before;
    var r := Swap(s, i, c);
    SwapKnown(ts, s, i, c);
    NotBoth(ts, s[c], s[i]);
    forall k | 0 < k < |r| && Parent(k) != c ensures !Before(ts, r[k], r[Parent(k)]) {
    }
    forall k | 0 < k < |r| && c > 0 && Parent(k) == c ensures !Before(ts, r[k], r[Parent(c)]) {
      assert !Before(ts, s[k], s[Parent(k)]);
    }
  }

  lemma SiftDownDone(ts: seq<Timer>, s: seq<nat>, i: nat)
    requires Known(ts, s) && HeapBelow(ts, s, i) && forall k | 0 < k < |s| && Parent(k) == i :: !Before(ts, s[k], s[i])
    ensures Heap(ts, s)
  {
  }

  /** Nothing comes before the root. */
  lemma {:induction false} RootFirst(ts: seq<Timer>, s: seq<nat>, k: nat)
    requires Known(ts, s) && Heap(ts, s) && k < |s|
    ensures !Before(ts, s[k], s[0])
  {
    hide Before;
    if k == 0 {
      Irreflexive(ts, s[0]);
    } else {
      RootFirst(ts, s, Parent(k));
      NotBeforeTrans(ts, s[k], s[Parent(k)], s[0]);
    }
  }

  lemma Irreflexive(ts: seq<Timer>, a: nat)
    requires a < |ts|
    ensures !Before(ts, a, a)
  {
  }

  /** Only heap indices differ. */
  ghost predicate SameKeys(ts: seq<Timer>, us: seq<Timer>) {
    |ts| == |us| && forall t | 0 <= t < |ts| :: us[t] == ts[t].(heapIndex := us[t].heapIndex)
  }

  lemma SameKeysHeap(ts: seq<Timer>, us: seq<Timer>, s: seq<nat>)
    requires SameKeys(ts, us) && Known(ts, s)
    ensures Known(us, s) && (Heap(ts, s) <==> Heap(us, s))
    ensures forall i: nat ::
            (HeapAbove(ts, s, i) <==> HeapAbove(us, s, i)) && (HeapBelow(ts, s, i) <==> HeapBelow(us, s, i))
  {
    forall a: nat, b: nat | a < |ts| && b < |ts| ensures Before(ts, a, b) == Before(us, a, b) {
    }
  }

  // ----- taking one out, putting one in -----

  /** The last timer takes the place of the one removed. */
  ghost function Removed(s: seq<nat>, i: nat): seq<nat>
    requires i < |s|
  {
    if i == |s| - 1 then s[..i] else s[..|s| - 1][i := s[|s| - 1]]
  }

  lemma RemovedIs(s: seq<nat>, i: nat)
    requires i < |s| && Distinct(s)
    ensures Distinct(Removed(s, i)) && forall x :: x in Removed(s, i) <==> x in s && x != s[i]
  {
    var n := |s| - 1;
    var r := Removed(s, i);
    forall x ensures x in r <==> x in s && x != s[i] {
      if x in s && x != s[i] {
        var k :| 0 <= k < |s| && s[k] == x;
        assert r[if k == n then i else k] == x;
      }
      if x in r {
        var k :| 0 <= k < |r| && r[k] == x;
        assert s[if k == i then n else k] == x;
      }
    }
  }

  lemma RemovedHeap(ts: seq<Timer>, s: seq<nat>, i: nat)
    requires Known(ts, s) && Heap(ts, s) && i < |s| - 1
    ensures Known(ts, Removed(s, i))
    ensures i > 0 && Before(ts, s[|s| - 1], s[Parent(i)]) ==> HeapAbove(ts, Removed(s, i), i)
    ensures !(i > 0 && Before(ts, s[|s| - 1], s[Parent(i)])) ==> HeapBelow(ts, Removed(s, i), i)
  {
    hide Before;
    var r := Removed(s, i);
    var m := s[|s| - 1];
    forall k | 0 < k < |r| && i > 0 && Parent(k) == i ensures !Before(ts, r[k], r[Parent(i)]) {
      assert !Before(ts, s[k], s[Parent(k)]) && !Before(ts, s[i], s[Parent(i)]);
      NotBeforeTrans(ts, s[k], s[i], s[Parent(i)]);
    }
    if i > 0 && Before(ts, m, s[Parent(i)]) {
      NotBoth(ts, m, s[Parent(i)]);
      forall k | 0 < k < |r| && k != i ensures !Before(ts, r[k], r[Parent(k)]) {
        assert !Before(ts, s[k], s[Parent(k)]);
        if Parent(k) == i {
          assert !Before(ts, s[i], s[Parent(i)]);
          NotBeforeTrans(ts, s[k], s[i], s[Parent(i)]);
          NotBeforeTrans(ts, s[k], s[Parent(i)], m);
        }
      }
    }
  }

  lemma AppendedHeap(ts: seq<Timer>, s: seq<nat>, t: nat)
    requires Known(ts, s) && Heap(ts, s) && t < |ts|
    ensures Known(ts, s + [t]) && HeapAbove(ts, s + [t], |s|)
  {
    var r := s + [t];
    forall k | 0 < k < |r| && k != |s| ensures !Before(ts, r[k], r[Parent(k)]) {
      assert !Before(ts, s[k], s[Parent(k)]);
    }
  }
}
