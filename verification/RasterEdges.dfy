/** From closed contours to edges, and why nothing is covered outside the edges' box. */
module RasterEdges {
  import opened Products
  import opened Raster
  import opened RasterSpec
  import opened Statuses

  datatype Point = Point(x: int, y: int)

  /** How far down a pixel row `y` is, from its top side to its bottom side. */
  function Clamp(y: int, row: int): int {
    Max(256 * row, Min(y, 256 * row + 256))
  }

  /** The signed height of an edge in a row. */
  ghost function RowHeight(e: Edge, row: int): int
    requires e.y0 < e.y1
  {
    if Crosses(e, row) then Signed(e.down, EdgePiece(e, row).height) else 0
  }

  ghost function HeightSum(edges: seq<Edge>, n: nat, row: int): int
    requires n <= |edges| && EdgesOk(edges)
  {
    if n == 0 then 0 else HeightSum(edges, n - 1, row) + RowHeight(edges[n - 1], row)
  }

  /** In every row of the clip what goes down comes up again. */
  ghost predicate Balanced(edges: seq<Edge>, clip: Rect)
    requires EdgesOk(edges)
  {
    forall row | clip.y0 <= row < clip.y1 :: HeightSum(edges, |edges|, row) == 0
  }

  lemma {:induction false} HeightSumPrefix(edges: seq<Edge>, e: Edge, n: nat, row: int)
    requires n <= |edges| && EdgesOk(edges) && e.y0 < e.y1
    ensures EdgesOk(edges + [e]) && HeightSum(edges + [e], n, row) == HeightSum(edges, n, row)
  {
    if n > 0 {
      HeightSumPrefix(edges, e, n - 1, row);
    }
  }

  lemma HeightSumAppend(edges: seq<Edge>, e: Edge, row: int)
    requires EdgesOk(edges) && e.y0 < e.y1
    ensures EdgesOk(edges + [e])
    ensures HeightSum(edges + [e], |edges| + 1, row) == HeightSum(edges, |edges|, row) + RowHeight(e, row)
  {
    hide RowHeight;
    HeightSumPrefix(edges, e, |edges|, row);
  }

  /** The edge from `a` to `b`, stood upright. */
  function EdgeOf(a: Point, b: Point): (e: Edge)
    requires a.y != b.y
    ensures e.y0 < e.y1
  {
    if a.y < b.y then Edge(a.x, a.y, b.x, b.y, true) else Edge(b.x, b.y, a.x, a.y, false)
  }

  /** What a segment adds to the list: nothing if it is level or misses the clip's rows. */
  function Kept(a: Point, b: Point, clip: Rect): seq<Edge> {
    if a.y == b.y then []
    else
      var e := EdgeOf(a, b);
      if e.y1 <= 256 * clip.y0 || e.y0 >= 256 * clip.y1 then [] else [e]
  }

  /** Whichever way it runs, an edge's height in a row is how far it moves down that row. */
  lemma EdgeClimb(a: Point, b: Point, row: int)
    requires a.y != b.y
    ensures RowHeight(EdgeOf(a, b), row) == Clamp(b.y, row) - Clamp(a.y, row)
  {
    hide EdgeXAt;
  }

  /** The flattener: the edges so far, the current contour's start, and the current point. */
  class Flattener {
    const clip: Rect
    var edges: seq<Edge>
    var status: Status
    var cur: Point
    var start: Point
    var open: bool

    /** Every row of the clip is balanced but for the way from the contour's start to the current point. */
    ghost predicate Valid()
      reads this
    {
      && EdgesOk(edges) && |edges| <= MAX_EDGES
      && (status == Ok ==> forall row | clip.y0 <= row < clip.y1 :: RowOk(edges, row, open, start, cur))
    }

    constructor (clip: Rect)
      ensures Valid() && this.clip == clip && edges == [] && status == Ok && !open
    {
      this.clip, edges, status, cur, start, open := clip, [], Ok, Point(0, 0), Point(0, 0), false;
    }

    /** Appends an edge, but for a level one and one that misses the clip's rows. */
    method AddEdge(a: Point, b: Point)
      requires EdgesOk(edges) && |edges| <= MAX_EDGES
      modifies this`edges, this`status
      ensures EdgesOk(edges) && |edges| <= MAX_EDGES
      ensures status == if old(status) == Ok && |old(edges) + Kept(a, b, clip)| > MAX_EDGES then ErrUnsupported
              else old(status)
      ensures edges == if status == Ok then old(edges) + Kept(a, b, clip) else old(edges)
      ensures status == Ok ==> forall row | clip.y0 <= row < clip.y1 :: RowAdded(old(edges), edges, row, a, b)
    {
      hide RowHeight, Clamp;
      if status != Ok || a.y == b.y {
        assert a.y == b.y ==> forall row :: Clamp(a.y, row) == Clamp(b.y, row);
        return;
      }
      var e := EdgeOf(a, b);
      if e.y1 <= 256 * clip.y0 || e.y0 >= 256 * clip.y1 {
        forall row | clip.y0 <= row < clip.y1 ensures RowAdded(edges, edges, row, a, b) {
          EdgeClimb(a, b, row);
          Missed(e, row);
        }
        return;
      }
      if |edges| >= MAX_EDGES {
        status := ErrUnsupported;
        return;
      }
      forall row ensures EdgesOk(edges + [e]) && RowAdded(edges, edges + [e], row, a, b) {
        EdgeClimb(a, b, row);
        HeightSumAppend(edges, e, row);
      }
      edges := edges + [e];
    }

    method Line(p: Point)
      requires Valid() && open
      modifies this`edges, this`status, this`cur
      ensures Valid() && cur == p && (old(status) != Ok ==> status == old(status))
      ensures edges == if status == Ok then old(edges) + Kept(old(cur), p, clip) else old(edges)
    {
      hide HeightSum, Clamp;
      ghost var was := edges;
      AddEdge(cur, p);
      if status == Ok {
        forall row | clip.y0 <= row < clip.y1 ensures RowOk(edges, row, true, start, p) {
          assert RowOk(was, row, true, start, cur) && RowAdded(was, edges, row, cur, p);
        }
      }
      cur := p;
    }

    /** A contour is closed whether or not the path says so. */
    method Close()
      requires Valid()
      modifies this`edges, this`status, this`cur, this`open
      ensures Valid() && !open && (old(status) != Ok ==> status == old(status))
      ensures edges == if status == Ok && old(open) then old(edges) + Kept(old(cur), start, clip) else old(edges)
      ensures (old(open) ==> cur == start) && (status == Ok ==> Balanced(edges, clip))
    {
      hide HeightSum, Clamp;
      if open {
        Line(start);
        if status == Ok {
          forall row | clip.y0 <= row < clip.y1 ensures RowOk(edges, row, false, start, cur) {
            assert RowOk(edges, row, open, start, cur);
          }
        }
        open := false;
      }
      if status == Ok {
        forall row | clip.y0 <= row < clip.y1 ensures HeightSum(edges, |edges|, row) == 0 {
          assert RowOk(edges, row, false, start, cur);
        }
      }
    }

    method Move(p: Point)
      requires Valid()
      modifies this`edges, this`status, this`cur, this`start, this`open
      ensures Valid() && open && cur == p == start && (old(status) != Ok ==> status == old(status))
      ensures edges == if status == Ok && old(open) then old(edges) + Kept(old(cur), old(start), clip) else old(edges)
    {
      hide HeightSum, Clamp;
      Close();
      if status == Ok {
        forall row | clip.y0 <= row < clip.y1 ensures RowOk(edges, row, true, p, p) {
          assert RowOk(edges, row, false, start, cur);
        }
      }
      cur, start, open := p, p, true;
    }
  }

  ghost predicate RowOk(edges: seq<Edge>, row: int, open: bool, start: Point, cur: Point)
    requires EdgesOk(edges)
  {
    HeightSum(edges, |edges|, row) == if open then Clamp(cur.y, row) - Clamp(start.y, row) else 0
  }

  ghost predicate RowAdded(was: seq<Edge>, now: seq<Edge>, row: int, a: Point, b: Point)
    requires EdgesOk(was) && EdgesOk(now)
  {
    HeightSum(now, |now|, row) == HeightSum(was, |was|, row) + Clamp(b.y, row) - Clamp(a.y, row)
  }

  lemma Missed(e: Edge, row: int)
    requires e.y0 < e.y1 && !Crosses(e, row)
    ensures RowHeight(e, row) == 0
  {
  }

  // ----- outside the box -----

  lemma {:induction false} InBounds(edges: seq<Edge>, n: nat, i: nat)
    requires i < n <= |edges|
    ensures var b := Bounds(edges, n);
            && b.x0 <= Min(edges[i].x0, edges[i].x1) && Max(edges[i].x0, edges[i].x1) <= b.x1
            && b.y0 <= edges[i].y0 && edges[i].y1 <= b.y1
  {
    if i < n - 1 {
      InBounds(edges, n - 1, i);
    }
  }

  /** A piece left of a place counts there as a whole, one right of it not at all, and neither has area in the pixel. */
  lemma PieceOutside(p: Piece, x: int)
    requires PieceOk(p)
    ensures 256 * x + 256 <= p.left ==> Reach(p, 256 * x + 256) == 0 == AreaIn(p, 256 * x)
    ensures p.right <= 256 * x ==> Reach(p, 256 * x + 256) == p.height && AreaIn(p, 256 * x) == 0
  {
    hide Rise;
    ProductZero(p.height);
    assert Product(p.height, 0) == 0;
  }

  /** The sums of a pixel outside the box: nothing, or right of it the whole height of its row. */
  lemma {:induction false} SumsOutside(edges: seq<Edge>, n: nat, x: int, row: int)
    requires n <= |edges| && EdgesOk(edges) && edges != []
    requires var b := Bounds(edges, |edges|);
             256 * x + 256 <= b.x0 || b.x1 <= 256 * x || 256 * row + 256 <= b.y0 || b.y1 <= 256 * row
    ensures AreaSum(edges, n, x, row) == 0
    ensures Winding(edges, n, x, row) == 0 || Winding(edges, n, x, row) == HeightSum(edges, n, row)
    ensures var b := Bounds(edges, |edges|);
            256 * x + 256 <= b.x0 || 256 * row + 256 <= b.y0 || b.y1 <= 256 * row ==> Winding(edges, n, x, row) == 0
    ensures var b := Bounds(edges, |edges|);
            b.x1 <= 256 * x ==> Winding(edges, n, x, row) == HeightSum(edges, n, row)
  {
    hide EdgePiece, Reach, AreaIn, Bounds;
    if n > 0 {
      SumsOutside(edges, n - 1, x, row);
      var e := edges[n - 1];
      InBounds(edges, |edges|, n - 1);
      if Crosses(e, row) {
        PieceIsOk(e, row);
        PieceBetween(e, row);
        PieceOutside(EdgePiece(e, row), x);
      }
    }
  }

  lemma NoTone(rule: Rule)
    ensures Tone(rule, 0) == 0
  {
  }

  /** Where the heights of a row cancel, its pixels outside the box have no coverage. */
  lemma NothingOutside(edges: seq<Edge>, rule: Rule, x: int, row: int)
    requires EdgesOk(edges) && edges != [] && HeightSum(edges, |edges|, row) == 0
    requires var b := Bounds(edges, |edges|);
             256 * x + 256 <= b.x0 || b.x1 <= 256 * x || 256 * row + 256 <= b.y0 || b.y1 <= 256 * row
    ensures Coverage(edges, rule, x, row) == 0
  {
    hide Winding, AreaSum, HeightSum, Bounds, Tone;
    SumsOutside(edges, |edges|, x, row);
    NoTone(rule);
  }

  lemma NoEdges(edges: seq<Edge>, rule: Rule, x: int, row: int)
    requires EdgesOk(edges) && edges == []
    ensures Coverage(edges, rule, x, row) == 0
  {
    hide Tone;
    NoTone(rule);
  }

  /** For closed contours the output is complete: a pixel of the clip gets its coverage, and one that gets no
      byte has none. */
  lemma FillComplete(out: seq<Span>, edges: seq<Edge>, rule: Rule, clip: Rect, x: int, y: int)
    requires EdgesOk(edges) && Balanced(edges, clip) && Filled(out, edges, rule, clip)
    requires clip.x0 <= x < clip.x1 && clip.y0 <= y < clip.y1
    ensures ByteAt(out, x, y) == Coverage(edges, rule, x, y)
            || (ByteAt(out, x, y) == -1 && Coverage(edges, rule, x, y) == 0)
  {
    hide Coverage, SpanOk, ByteAt, Bounds, HeightSum;
    NoSpans(x, y);
    if edges == [] {
      NoEdges(edges, rule, x, y);
    } else {
      var v := Visible(edges, clip);
      if v.x0 < v.x1 && v.y0 < v.y1 {
        ByteInSpans(out, edges, rule, v.y0, v.x0, v.x1 - v.x0, x, y);
      }
      if !(v.x0 <= x < v.x1 && v.y0 <= y < v.y1) {
        NothingOutside(edges, rule, x, y);
      }
    }
  }
}
