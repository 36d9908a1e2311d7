/** The sweep that normalizes the firmware's memory map. */
module Normalize {
  import opened MemoryMap
  import opened Statuses
  import opened Words

  ghost predicate IsPoint(input: seq<Region>, x: nat)
    requires InWords(input)
  {
    exists i | 0 <= i < |input| :: EndOf(input[i], x)
  }

  /** `x` bounds the rounded region. */
  ghost predicate EndOf(r: Region, x: nat)
    requires r.base < TWO64 && r.length < TWO64
  {
    var v := Round(r);
    v.Kept? && (x == v.base || x == v.end)
  }

  ghost predicate Increasing(s: seq<nat>) {
    forall i, j | 0 <= i < j < |s| :: s[i] < s[j]
  }

  ghost predicate Sorted(s: seq<nat>) {
    forall i, j | 0 <= i < j < |s| :: s[i] <= s[j]
  }

  ghost predicate SameElements(s: seq<nat>, t: seq<nat>) {
    forall x :: x in s <==> x in t
  }

  method CollectPoints(input: seq<Region>, points: array<nat>) returns (n: nat)
    requires InWords(input) && points.Length >= 2 * |input|
    modifies points
    ensures n <= points.Length && forall x: nat :: x in points[..n] <==> IsPoint(input, x)
  {
    hide Round;
    n := 0;
    var i := 0;
    while i < |input|
      invariant 0 <= i <= |input| && n <= 2 * i
      invariant forall x: nat :: x in points[..n] <==> IsPoint(input[..i], x)
    {
      ghost var before := points[..n];
      PointsGrow(input, i);
      match Round(input[i]) {
        case Dropped =>
        case Kept(base, end) =>
          points[n], points[n + 1] := base, end;
          n := n + 2;
          assert points[..n] == before + [base, end];
      }
      i := i + 1;
    }
    assert input[..i] == input;
  }

  lemma PointsGrow(input: seq<Region>, i: nat)
    requires InWords(input) && i < |input|
    ensures forall x: nat :: IsPoint(input[..i + 1], x) <==> IsPoint(input[..i], x) || EndOf(input[i], x)
  {
    hide EndOf;
    var m, n := input[..i], input[..i + 1];
    forall x: nat ensures IsPoint(n, x) <==> IsPoint(m, x) || EndOf(input[i], x) {
      if IsPoint(m, x) {
        var k :| 0 <= k < |m| && EndOf(m[k], x);
        assert n[k] == m[k];
      }
      if IsPoint(n, x) {
        var k :| 0 <= k < |n| && EndOf(n[k], x);
        assert k < i ==> m[k] == n[k];
      }
      assert n[i] == input[i];
    }
  }

  /** Insertion sort in place. */
  method SortPoints(points: array<nat>, n: nat)
    requires n <= points.Length
    modifies points
    ensures Sorted(points[..n]) && SameElements(points[..n], old(points[..n]))
  {
    var i := 1;
    while i < n
      invariant n <= 1 || 1 <= i <= n
      invariant Sorted(if n < i then points[..n] else points[..i])
      invariant SameElements(points[..n], old(points[..n]))
    {
      Insert(points, n, i);
      i := i + 1;
    }
  }

  method Insert(points: array<nat>, n: nat, i: nat)
    requires 0 < i < n <= points.Length && Sorted(points[..i])
    modifies points
    ensures Sorted(points[..i + 1]) && SameElements(points[..n], old(points[..n]))
  {
    ghost var was := points[..];
    var key := points[i];
    var j := i;
    while j > 0 && points[j - 1] > key
      invariant 0 <= j <= i
      invariant forall k | 0 <= k < j :: points[k] == was[k]
      invariant forall k | j < k <= i :: points[k] == was[k - 1] && points[k] > key
      invariant forall k | i < k < points.Length :: points[k] == was[k]
    {
      points[j] := points[j - 1];
      j := j - 1;
    }
    points[j] := key;
    ghost var now := points[..];
    assert forall k | j < k <= i :: now[k] == points[k];
    Moved(was, now, j, i, n);
  }

  /** One element moved down past others: still sorted, still the same elements. */
  lemma Moved(was: seq<nat>, s: seq<nat>, j: nat, i: nat, n: nat)
    requires |was| == |s| && j <= i < n <= |s| && Sorted(was[..i])
    requires s[j] == was[i] && (j > 0 ==> was[j - 1] <= was[i])
    requires forall k | 0 <= k < j :: s[k] == was[k]
    requires forall k | j < k <= i :: s[k] == was[k - 1] && s[k] > was[i]
    requires forall k | i < k < |s| :: s[k] == was[k]
    ensures Sorted(s[..i + 1]) && SameElements(s[..n], was[..n])
  {
    var t := s[..i + 1];
    forall a, b | 0 <= a < b < |t| ensures t[a] <= t[b] {
      var w := was[..i];
      var a', b' := if a < j then a else a - 1, if b < j then b else b - 1;
      if a != j && b != j {
        assert t[a] == w[a'] && t[b] == w[b'];
        assert w[a'] <= w[b'];
      } else if b == j {
        assert a < j - 1 ==> w[a] <= w[j - 1];
      }
    }
    MovedElements(was, s, j, i, n);
  }

  lemma MovedElements(was: seq<nat>, s: seq<nat>, j: nat, i: nat, n: nat)
    requires |was| == |s| && j <= i < n <= |s| && s[j] == was[i]
    requires forall k | 0 <= k < j :: s[k] == was[k]
    requires forall k | j < k <= i :: s[k] == was[k - 1]
    requires forall k | i < k < |s| :: s[k] == was[k]
    ensures SameElements(s[..n], was[..n])
  {
    forall x ensures x in s[..n] <==> x in was[..n] {
      if x in s[..n] {
        var k :| 0 <= k < n && s[k] == x;
        assert was[..n][if k == j then i else if j < k <= i then k - 1 else k] == x;
      }
      if x in was[..n] {
        var k :| 0 <= k < n && was[k] == x;
        assert s[..n][if k == i then j else if j <= k < i then k + 1 else k] == x;
      }
    }
  }

  /** Drops repetitions from a sorted run, in place. */
  method DropRepeats(points: array<nat>, n: nat) returns (m: nat)
    requires n <= points.Length && Sorted(points[..n])
    modifies points
    ensures m <= n && Increasing(points[..m]) && SameElements(points[..m], old(points[..n]))
  {
    ghost var was := points[..n];
    m := 0;
    var i := 0;
    while i < n
      invariant 0 <= m <= i <= n
      invariant forall k | i <= k < n :: points[k] == was[k]
      invariant Increasing(points[..m]) && (i == 0 <==> m == 0) && (m > 0 ==> points[m - 1] == was[i - 1])
      invariant SameElements(points[..m], was[..i])
    {
      assert was[..i + 1] == was[..i] + [was[i]];
      assert i > 0 ==> was[i - 1] <= was[i];
      if m == 0 || points[i] != points[m - 1] {
        ghost var before := points[..m];
        points[m] := points[i];
        m := m + 1;
        assert points[..m] == before + [was[i]];
      } else {
        assert points[..m][m - 1] == was[i];
      }
      i := i + 1;
    }
    assert was[..i] == was;
  }

  // ----- one segment between neighbouring points -----

  /** No rounded region starts or ends strictly between the two points. */
  ghost predicate Clear(input: seq<Region>, s: nat, e: nat)
    requires InWords(input)
  {
    forall x: nat | s < x < e :: !IsPoint(input, x)
  }

  lemma ClearCovers(input: seq<Region>, i: nat, s: nat, e: nat, a: nat)
    requires InWords(input) && i < |input| && Clear(input, s, e) && s <= a < e
    ensures Covers(input[i], a) <==> Round(input[i]).Kept? && Round(input[i]).base <= s && e <= Round(input[i]).end
  {
    hide Round;
    var v := Round(input[i]);
    if v.Kept? {
      assert EndOf(input[i], v.base) && EndOf(input[i], v.end);
      assert IsPoint(input, v.base) && IsPoint(input, v.end);
    }
  }

  /** The kind is the same all over a clear segment. */
  lemma {:induction false} ClearKind(input: seq<Region>, n: nat, s: nat, e: nat, a: nat)
    requires InWords(input) && n <= |input| && Clear(input, s, e) && s <= a < e
    ensures KindAt(input[..n], a) == KindAt(input[..n], s)
  {
    hide Round, Covers;
    if n > 0 {
      var m := input[..n];
      assert m[..n - 1] == input[..n - 1] && m[n - 1] == input[n - 1];
      ClearKind(input, n - 1, s, e, a);
      ClearCovers(input, n - 1, s, e, a);
      ClearCovers(input, n - 1, s, e, s);
    }
  }

  /** The highest-ranked kind of the regions around a segment. */
  method BestKind(input: seq<Region>, s: nat, e: nat) returns (best: nat)
    requires InWords(input) && s < e && Clear(input, s, e)
    ensures best == KindAt(input, s)
  {
    hide Round, Covers, Clear;
    var rank := -1;
    best := 0;
    var i := 0;
    while i < |input|
      invariant 0 <= i <= |input| && best == KindAt(input[..i], s) && rank == Rank(best)
    {
      assert input[..i + 1][..i] == input[..i];
      ClearCovers(input, i, s, e, s);
      match Round(input[i]) {
        case Dropped =>
        case Kept(base, end) =>
          if base <= s && e <= end && Rank(input[i].kind) > rank {
            rank := Rank(input[i].kind);
            best := input[i].kind;
          }
      }
      i := i + 1;
    }
    assert input[..i] == input;
  }

  // ----- the sweep -----

  /** A normal map with the input's kinds below `x` and nothing above. */
  ghost predicate NormalBelow(input: seq<Region>, out: seq<Region>, x: nat)
    requires InWords(input)
  {
    && Normal(out) && (out != [] ==> out[|out| - 1].base + out[|out| - 1].length <= x)
    && forall a: nat :: KindIn(out, a) == if a < x then KindAt(input, a) else 0
  }

  function Extend(out: seq<Region>, s: nat, e: nat, kind: nat): seq<Region>
    requires s < e
  {
    if out != [] && out[|out| - 1].kind == kind && out[|out| - 1].base + out[|out| - 1].length == s
    then out[|out| - 1 := out[|out| - 1].(length := e - out[|out| - 1].base)]
    else out + [Region(s, e - s, kind)]
  }

  lemma ExtendNormal(out: seq<Region>, s: nat, e: nat, kind: nat)
    requires Normal(out) && s < e < TWO64 && s % PAGE == 0 == e % PAGE && Rank(kind) >= 0
    requires out != [] ==> out[|out| - 1].base + out[|out| - 1].length <= s
    ensures Normal(Extend(out, s, e, kind))
    ensures var r := Extend(out, s, e, kind); r != [] && r[|r| - 1].base + r[|r| - 1].length == e
  {
    var r := Extend(out, s, e, kind);
    var n := |r| - 1;
    forall i | 0 <= i < |out| ensures RegionOk(out[i]) && out[i].base + out[i].length <= s {
      assert i < |out| - 1 ==> out[i].base + out[i].length <= out[|out| - 1].base;
    }
    assert RegionOk(r[n]);
    forall i | 0 <= i < n ensures Follows(r[i], r[i + 1]) {
      assert i + 1 < |out| ==> Follows(out[i], out[i + 1]);
    }
  }

  lemma ExtendKinds(out: seq<Region>, s: nat, e: nat, kind: nat, a: nat)
    requires Normal(out) && s < e && Normal(Extend(out, s, e, kind))
    requires out != [] ==> out[|out| - 1].base + out[|out| - 1].length <= s
    ensures KindIn(Extend(out, s, e, kind), a) == if s <= a < e then kind else KindIn(out, a)
  {
    hide KindIn, Normal;
    var r := Extend(out, s, e, kind);
    LastRegion(r, a);
    if out != [] {
      LastRegion(out, a);
    } else {
      NothingIn(a);
    }
    if |r| == |out| {
      assert r[..|r| - 1] == out[..|r| - 1];
    } else {
      assert r[..|r| - 1] == out;
    }
  }

  lemma SweepStep(input: seq<Region>, out: seq<Region>, s: nat, e: nat, kind: nat)
    requires InWords(input) && NormalBelow(input, out, s) && s < e < TWO64 && s % PAGE == 0 == e % PAGE
    requires Clear(input, s, e) && kind == KindAt(input, s)
    ensures kind == 0 ==> NormalBelow(input, out, e)
    ensures kind != 0 ==> NormalBelow(input, Extend(out, s, e, kind), e)
  {
    hide KindIn, KindAt, Normal, Clear, Extend;
    forall a: nat | s <= a < e ensures KindAt(input, a) == kind {
      assert input[..|input|] == input;
      ClearKind(input, |input|, s, e, a);
    }
    if kind != 0 {
      assert Rank(kind) >= 0;
      ExtendNormal(out, s, e, kind);
      forall a: nat ensures KindIn(Extend(out, s, e, kind), a) == if s <= a < e then kind else KindIn(out, a) {
        ExtendKinds(out, s, e, kind, a);
      }
    }
  }

  lemma CoverPoints(input: seq<Region>, i: nat, a: nat)
    requires InWords(input) && i < |input| && Covers(input[i], a)
    ensures Round(input[i]).base <= a < Round(input[i]).end
    ensures IsPoint(input, Round(input[i]).base) && IsPoint(input, Round(input[i]).end)
  {
    hide Round;
    assert EndOf(input[i], Round(input[i]).base) && EndOf(input[i], Round(input[i]).end);
  }

  lemma AfterLast(input: seq<Region>, x: nat, a: nat)
    requires InWords(input) && x <= a && forall y: nat | IsPoint(input, y) :: y <= x
    ensures KindAt(input, a) == 0
  {
    hide Round, KindAt;
    KindAtTop(input, a);
    if KindAt(input, a) != 0 {
      var i :| 0 <= i < |input| && Covers(input[i], a);
      CoverPoints(input, i, a);
    }
  }

  lemma BeforeFirst(input: seq<Region>, x: nat, a: nat)
    requires InWords(input) && a < x && forall y: nat | IsPoint(input, y) :: x <= y
    ensures KindAt(input, a) == 0
  {
    hide Round, KindAt;
    KindAtTop(input, a);
    if KindAt(input, a) != 0 {
      var i :| 0 <= i < |input| && Covers(input[i], a);
      CoverPoints(input, i, a);
    }
  }

  lemma PointOk(input: seq<Region>, x: nat)
    requires InWords(input) && IsPoint(input, x)
    ensures x < TWO64 && x % PAGE == 0
  {
    hide Round;
  }

  lemma NotBetween(points: seq<nat>, k: nat, x: nat)
    requires Increasing(points) && k + 1 < |points| && points[k] < x < points[k + 1]
    ensures x !in points
  {
    forall i | 0 <= i < |points| ensures points[i] != x {
      assert i < k ==> points[i] < points[k];
      assert i > k + 1 ==> points[k + 1] < points[i];
    }
  }

  lemma NeighboursClear(input: seq<Region>, points: seq<nat>, k: nat)
    requires InWords(input) && Increasing(points) && k + 1 < |points| && forall x: nat :: x in points <==>
             IsPoint(input, x)
    ensures points[k] < points[k + 1] < TWO64 && points[k] % PAGE == 0 == points[k + 1] % PAGE
    ensures Clear(input, points[k], points[k + 1])
  {
    hide IsPoint;
    assert points[k] in points && points[k + 1] in points;
    PointOk(input, points[k]);
    PointOk(input, points[k + 1]);
    forall x: nat | points[k] < x < points[k + 1] ensures !IsPoint(input, x) {
      NotBetween(points, k, x);
    }
  }

  /** The output is the normal form of the input; it fails only when that form does not fit. */
  method NormalizeMap(input: seq<Region>, cap: nat, points: array<nat>) returns (status: Status, out: seq<Region>)
    requires InWords(input) && points.Length >= 2 * |input|
    modifies points
    ensures status == Ok ==> NormalForm(input, out) && |out| <= cap
    ensures status != Ok ==> status == ErrNoMemory && forall p | NormalForm(input, p) :: |p| > cap
  {
    hide Round, KindIn, KindAt, Normal, Clear, IsPoint;
    var n := CollectPoints(input, points);
    SortPoints(points, n);
    n := DropRepeats(points, n);
    ghost var ends := points[..n];
    out := [];
    if n == 0 {
      NoPoints(input, ends);
      return Ok, out;
    }
    Start(input, ends);
    var k := 0;
    while k + 1 < n
      invariant 0 <= k < n && |out| <= cap && NormalBelow(input, out, points[k])
      invariant points[..n] == ends
    {
      NeighboursClear(input, ends, k);
      var s, e := points[k], points[k + 1];
      var kind := BestKind(input, s, e);
      SweepStep(input, out, s, e, kind);
      if kind != 0 {
        if out != [] && out[|out| - 1].kind == kind && out[|out| - 1].base + out[|out| - 1].length == s {
          out := out[|out| - 1 := out[|out| - 1].(length := e - out[|out| - 1].base)];
        } else {
          if |out| >= cap {
            TooLong(input, out + [Region(s, e - s, kind)], e, cap);
            return ErrNoMemory, out;
          }
          out := out + [Region(s, e - s, kind)];
        }
      }
      k := k + 1;
    }
    Finish(input, out, ends);
    status := Ok;
  }

  lemma NoPoints(input: seq<Region>, ends: seq<nat>)
    requires InWords(input) && ends == [] && forall x: nat :: x in ends <==> IsPoint(input, x)
    ensures NormalForm(input, [])
  {
    hide IsPoint, KindAt;
    forall a: nat ensures KindIn([], a) == KindAt(input, a) {
      AfterLast(input, a, a);
    }
  }

  lemma Start(input: seq<Region>, ends: seq<nat>)
    requires InWords(input) && ends != [] && Increasing(ends) && forall x: nat :: x in ends <==> IsPoint(input, x)
    ensures NormalBelow(input, [], ends[0])
  {
    hide IsPoint, KindAt;
    forall a: nat ensures KindIn([], a) == if a < ends[0] then KindAt(input, a) else 0 {
      if a < ends[0] {
        BeforeFirst(input, ends[0], a);
      }
    }
  }

  lemma Finish(input: seq<Region>, out: seq<Region>, ends: seq<nat>)
    requires InWords(input) && ends != [] && Increasing(ends) && forall x: nat :: x in ends <==> IsPoint(input, x)
    requires NormalBelow(input, out, ends[|ends| - 1])
    ensures NormalForm(input, out)
  {
    hide IsPoint, KindAt, KindIn, Normal;
    var x := ends[|ends| - 1];
    forall a: nat ensures KindIn(out, a) == KindAt(input, a) {
      if a >= x {
        AfterLast(input, x, a);
      }
    }
  }

  lemma TooLong(input: seq<Region>, out: seq<Region>, e: nat, cap: nat)
    requires InWords(input) && NormalBelow(input, out, e) && |out| > cap && e % PAGE == 0
    ensures forall p | NormalForm(input, p) :: |p| > cap
  {
    hide KindAt, KindIn, Normal;
    forall p | NormalForm(input, p) ensures |p| > cap {
      ShorterBelow(out, p, e);
    }
  }
}
