/** Reachability in a lock-order graph and what keeps it acyclic. */
module LockOrder {

  /** `from` was held while `to` was acquired. */
  type Edge = (nat, nat)

  ghost predicate IsPath(g: set<Edge>, p: seq<nat>) {
    p != [] && forall i | 0 <= i < |p| - 1 :: (p[i], p[i + 1]) in g
  }

  ghost predicate PathFrom(g: set<Edge>, a: nat, b: nat, p: seq<nat>) {
    IsPath(g, p) && p[0] == a && p[|p| - 1] == b
  }

  /** Some chain of edges, possibly empty, leads from `a` to `b`. */
  ghost predicate Reach(g: set<Edge>, a: nat, b: nat) {
    exists p :: PathFrom(g, a, b, p)
  }

  ghost predicate Acyclic(g: set<Edge>) {
    forall a: nat, b: nat :: (a, b) in g ==> !Reach(g, b, a)
  }

  lemma ReachSelf(g: set<Edge>, a: nat)
    ensures Reach(g, a, a)
  {
    assert PathFrom(g, a, a, [a]);
  }

  lemma ReachEdge(g: set<Edge>, a: nat, b: nat)
    requires (a, b) in g
    ensures Reach(g, a, b)
  {
    assert PathFrom(g, a, b, [a, b]);
  }

  lemma ReachTrans(g: set<Edge>, a: nat, b: nat, c: nat)
    requires Reach(g, a, b) && Reach(g, b, c)
    ensures Reach(g, a, c)
  {
    var p :| PathFrom(g, a, b, p);
    var q :| PathFrom(g, b, c, q);
    var r := p + q[1..];
    forall i | 0 <= i < |r| - 1 ensures (r[i], r[i + 1]) in g {
      if i < |p| - 1 {
        assert (p[i], p[i + 1]) in g;
      } else {
        var j := i - (|p| - 1);
        assert (q[j], q[j + 1]) in g;
      }
    }
    assert PathFrom(g, a, c, r);
  }

  lemma ReachMonotone(g: set<Edge>, h: set<Edge>, a: nat, b: nat)
    requires g <= h && Reach(g, a, b)
    ensures Reach(h, a, b)
  {
    var p :| PathFrom(g, a, b, p);
    assert PathFrom(h, a, b, p);
  }

  /** A set that holds `a` and is closed under edges holds everything reachable from `a`. */
  lemma ClosedHoldsReachable(g: set<Edge>, closed: set<nat>, a: nat, b: nat)
    requires a in closed && Reach(g, a, b)
    requires forall x: nat, y: nat :: (x, y) in g && x in closed ==> y in closed
    ensures b in closed
  {
    var p :| PathFrom(g, a, b, p);
    ClosedAlong(g, closed, p, |p| - 1);
  }

  lemma {:induction false} ClosedAlong(g: set<Edge>, closed: set<nat>, p: seq<nat>, k: nat)
    requires IsPath(g, p) && k < |p| && p[0] in closed
    requires forall x: nat, y: nat :: (x, y) in g && x in closed ==> y in closed
    ensures p[k] in closed
  {
    if k > 0 {
      ClosedAlong(g, closed, p, k - 1);
      assert (p[k - 1], p[k - 1 + 1]) in g;
    }
  }

  /** A path that uses a new edge into `c` ends in a path of old edges from `c`. */
  lemma {:induction false} LastVisit(g: set<Edge>, h: nat, c: nat, p: seq<nat>)
    requires IsPath(g + {(h, c)}, p)
    ensures IsPath(g, p) || Reach(g, c, p[|p| - 1])
    decreases |p|
  {
    if |p| > 1 {
      var q := p[1..];
      assert IsPath(g + {(h, c)}, q) by {
        forall i | 0 <= i < |q| - 1 ensures (q[i], q[i + 1]) in g + {(h, c)} {
          assert (p[i + 1], p[i + 1 + 1]) in g + {(h, c)};
        }
      }
      LastVisit(g, h, c, q);
      assert (p[0], p[0 + 1]) in g + {(h, c)};
      if IsPath(g, q) {
        if (p[0], p[1]) in g {
          forall i | 0 <= i < |p| - 1 ensures (p[i], p[i + 1]) in g {
            if i > 0 {
              assert (q[i - 1], q[i - 1 + 1]) in g;
            }
          }
        } else {
          assert PathFrom(g, c, p[|p| - 1], q);
        }
      }
    }
  }

  /** Adding `h -> c` creates no path from `c` that was not there. */
  lemma NoNewReachFrom(g: set<Edge>, h: nat, c: nat, x: nat)
    requires Reach(g + {(h, c)}, c, x)
    ensures Reach(g, c, x)
  {
    var p :| PathFrom(g + {(h, c)}, c, x, p);
    LastVisit(g, h, c, p);
    if IsPath(g, p) {
      assert PathFrom(g, c, x, p);
    }
  }

  /** An edge into `c` from a node `c` does not reach keeps the graph acyclic. */
  lemma AddEdgeAcyclic(g: set<Edge>, h: nat, c: nat)
    requires Acyclic(g) && !Reach(g, c, h)
    ensures Acyclic(g + {(h, c)})
  {
    var g' := g + {(h, c)};
    forall a: nat, b: nat | (a, b) in g' && Reach(g', b, a) ensures false {
      var p :| PathFrom(g', b, a, p);
      LastVisit(g, h, c, p);
      if (a, b) == (h, c) {
        NoNewReachFrom(g, h, c, h);
      } else if IsPath(g, p) {
        assert PathFrom(g, b, a, p);
      } else {
        PathUsesNew(g, h, c, p);
        ReachEdge(g, a, b);
        ReachTrans(g, c, a, b);
        ReachTrans(g, c, b, h);
      }
    }
  }

  /** A path that is not old reaches `h` by old edges first. */
  lemma {:induction false} PathUsesNew(g: set<Edge>, h: nat, c: nat, p: seq<nat>)
    requires IsPath(g + {(h, c)}, p) && !IsPath(g, p)
    ensures Reach(g, p[0], h)
    decreases |p|
  {
    assert |p| > 1;
    assert (p[0], p[0 + 1]) in g + {(h, c)};
    if (p[0], p[1]) !in g {
      ReachSelf(g, h);
    } else {
      var q := p[1..];
      assert IsPath(g + {(h, c)}, q) by {
        forall i | 0 <= i < |q| - 1 ensures (q[i], q[i + 1]) in g + {(h, c)} {
          assert (p[i + 1], p[i + 1 + 1]) in g + {(h, c)};
        }
      }
      if IsPath(g, q) {
        forall i | 0 <= i < |p| - 1 ensures (p[i], p[i + 1]) in g {
          if i > 0 {
            assert (q[i - 1], q[i - 1 + 1]) in g;
          }
        }
        assert IsPath(g, p);
      }
      PathUsesNew(g, h, c, q);
      ReachEdge(g, p[0], p[1]);
      ReachTrans(g, p[0], p[1], h);
    }
  }

  lemma SubsetAcyclic(g: set<Edge>, h: set<Edge>)
    requires g <= h && Acyclic(h)
    ensures Acyclic(g)
  {
    forall a: nat, b: nat | (a, b) in g && Reach(g, b, a) ensures false {
      ReachMonotone(g, h, b, a);
    }
  }

  lemma {:induction false} AddEdgesAcyclic(g: set<Edge>, from: set<nat>, c: nat)
    requires Acyclic(g) && forall h | h in from :: !Reach(g, c, h)
    ensures Acyclic(g + set h | h in from :: (h, c))
    decreases from
  {
    if from == {} {
      assert g + (set h | h in from :: (h, c)) == g;
    } else {
      var h :| h in from;
      AddEdgeAcyclic(g, h, c);
      var g' := g + {(h, c)};
      forall x | x in from - {h} ensures !Reach(g', c, x) {
        if Reach(g', c, x) {
          NoNewReachFrom(g, h, c, x);
        }
      }
      AddEdgesAcyclic(g', from - {h}, c);
      assert g' + (set x | x in from - {h} :: (x, c)) == g + (set x | x in from :: (x, c));
    }
  }
}
