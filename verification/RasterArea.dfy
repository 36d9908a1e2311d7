/** What a coverage byte means: the area of the pixel that lies inside the shape. Lengths are in 1/256 pixel, so that
    a pixel is 256 columns wide and 256 lines high. */
module RasterArea {
  import opened Products
  import opened Raster
  import opened RasterEdges
  import opened RasterSpec

  // ----- one edge -----

  /** How many columns of pixel `x` lie right of `at`. */
  function ColumnsRight(at: int, x: int): int {
    Max(0, Min(256 * x + 256 - at, 256))
  }

  /** How many lines of a pixel row lie between `y0` and `y1`. */
  function Lines(y0: int, y1: int, row: int): int {
    Max(0, Min(y1, 256 * row + 256) - Max(y0, 256 * row))
  }

  /** What an edge contributes to a pixel, in units of 1/131072. */
  ghost function EdgeValue(e: Edge, x: int, row: int): int
    requires e.y0 < e.y1
  {
    512 * EdgeReach(e, row, 256 * x + 256) - EdgeArea(e, row, 256 * x)
  }

  ghost function PixelValue(edges: seq<Edge>, n: nat, x: int, row: int): int
    requires n <= |edges| && EdgesOk(edges)
  {
    if n == 0 then 0 else PixelValue(edges, n - 1, x, row) + EdgeValue(edges[n - 1], x, row)
  }

  lemma {:induction false} ValueIs(edges: seq<Edge>, n: nat, x: int, row: int)
    requires n <= |edges| && EdgesOk(edges)
    ensures PixelValue(edges, n, x, row) == 512 * Winding(edges, n, x, row) - AreaSum(edges, n, x, row)
  {
    hide EdgeReach, EdgeArea;
    if n > 0 {
      ValueIs(edges, n - 1, x, row);
    }
  }

  lemma CoverageIs(edges: seq<Edge>, rule: Rule, x: int, row: int)
    requires EdgesOk(edges)
    ensures Coverage(edges, rule, x, row) == Tone(rule, PixelValue(edges, |edges|, x, row))
  {
    hide Tone, Winding, AreaSum, PixelValue;
    ValueIs(edges, |edges|, x, row);
  }

  /** In this row the edge is upright or does not enter the pixel's columns. */
  ghost predicate Plain(e: Edge, x: int, row: int)
    requires e.y0 < e.y1
  {
    var p := EdgePiece(e, row);
    !Crosses(e, row) || p.left == p.right || p.right <= 256 * x || 256 * x + 256 <= p.left
  }

  lemma PlainPiece(p: Piece, x: int)
    requires PieceOk(p) && (p.left == p.right || p.right <= 256 * x || 256 * x + 256 <= p.left)
    ensures 512 * Reach(p, 256 * x + 256) - AreaIn(p, 256 * x) == 2 * Product(p.height, ColumnsRight(p.right, x))
  {
    hide Rise;
  }

  /** Such an edge contributes twice its lines times the columns right of it. */
  lemma PlainValue(e: Edge, x: int, row: int)
    requires e.y0 < e.y1 && Plain(e, x, row)
    ensures EdgeValue(e, x, row)
         == Signed(e.down, 2 * Product(Lines(e.y0, e.y1, row), ColumnsRight(EdgePiece(e, row).right, x)))
  {
    hide EdgeXAt, Reach, AreaIn, ColumnsRight, Product;
    var p := EdgePiece(e, row);
    if Crosses(e, row) {
      PieceIsOk(e, row);
      PlainPiece(p, x);
      assert p.height == Lines(e.y0, e.y1, row);
    } else {
      assert Lines(e.y0, e.y1, row) == 0;
      ProductZero(ColumnsRight(p.right, x));
    }
  }

  lemma UprightPiece(e: Edge, row: int)
    requires e.y0 < e.y1 && e.x0 == e.x1 && Crosses(e, row)
    ensures EdgePiece(e, row).left == e.x0 == EdgePiece(e, row).right
  {
    hide EdgeXAt;
    PieceBetween(e, row);
  }

  /** An edge whose box misses the pixel's columns, or that is upright, is plain there. */
  lemma PlainByEnds(e: Edge, x: int, row: int)
    requires e.y0 < e.y1
    requires e.x0 == e.x1 || Max(e.x0, e.x1) <= 256 * x || 256 * x + 256 <= Min(e.x0, e.x1)
    ensures Plain(e, x, row)
  {
    hide EdgePiece;
    if Crosses(e, row) {
      PieceBetween(e, row);
    }
  }

  // ----- the winding number -----

  /** The edge passes the line `py` of its row at or left of column `px`. */
  ghost predicate Past(e: Edge, row: int, px: int, py: int)
    requires e.y0 < e.y1
  {
    e.y0 <= py < e.y1 && EdgePiece(e, row).right <= px
  }

  function One(b: bool): int {
    if b then 1 else 0
  }

  /** How often the first `n` edges go around a place of the row: those left of it that go down, less those that go
      up. */
  ghost function WindingAt(edges: seq<Edge>, n: nat, row: int, px: int, py: int): int
    requires n <= |edges| && EdgesOk(edges)
  {
    if n == 0 then 0
    else WindingAt(edges, n - 1, row, px, py) + Signed(edges[n - 1].down, One(Past(edges[n - 1], row, px, py)))
  }

  /** Over the first `j` columns of pixel `x` in line `py`. */
  ghost function LineSum(edges: seq<Edge>, n: nat, x: int, row: int, py: int, j: nat): int
    requires n <= |edges| && EdgesOk(edges)
  {
    if j == 0 then 0
    else LineSum(edges, n, x, row, py, j - 1) + WindingAt(edges, n, row, 256 * x + j - 1, py)
  }

  /** Over the first `i` lines of the pixel. */
  ghost function PixelSum(edges: seq<Edge>, n: nat, x: int, row: int, i: nat): int
    requires n <= |edges| && EdgesOk(edges)
  {
    if i == 0 then 0
    else PixelSum(edges, n, x, row, i - 1) + LineSum(edges, n, x, row, 256 * row + i - 1, 256)
  }

  lemma {:induction false} LineOfNone(edges: seq<Edge>, x: int, row: int, py: int, j: nat)
    requires EdgesOk(edges)
    ensures LineSum(edges, 0, x, row, py, j) == 0
  {
    if j > 0 {
      LineOfNone(edges, x, row, py, j - 1);
    }
  }

  lemma {:induction false} PixelOfNone(edges: seq<Edge>, x: int, row: int, i: nat)
    requires EdgesOk(edges)
    ensures PixelSum(edges, 0, x, row, i) == 0
  {
    if i > 0 {
      PixelOfNone(edges, x, row, i - 1);
      LineOfNone(edges, x, row, 256 * row + i - 1, 256);
    }
  }

  /** One more edge adds, in a line it passes, one for every column right of it. */
  lemma {:induction false} LineOfEdge(edges: seq<Edge>, n: nat, x: int, row: int, py: int, j: nat)
    requires 0 < n <= |edges| && EdgesOk(edges) && j <= 256
    ensures var e := edges[n - 1];
            LineSum(edges, n, x, row, py, j) == LineSum(edges, n - 1, x, row, py, j)
              + if e.y0 <= py < e.y1 then Signed(e.down, Max(0, Min(256 * x + j - EdgePiece(e, row).right, j))) else 0
  {
    hide EdgePiece;
    if j > 0 {
      LineOfEdge(edges, n, x, row, py, j - 1);
    }
  }

  /** And so for each of its lines. */
  lemma {:induction false} PixelOfEdge(edges: seq<Edge>, n: nat, x: int, row: int, i: nat)
    requires 0 < n <= |edges| && EdgesOk(edges) && i <= 256
    ensures var e := edges[n - 1];
            PixelSum(edges, n, x, row, i) == PixelSum(edges, n - 1, x, row, i)
              + Signed(e.down, Product(Max(0, Min(e.y1, 256 * row + i) - Max(e.y0, 256 * row)),
                                       ColumnsRight(EdgePiece(e, row).right, x)))
  {
    hide EdgePiece, LineSum, Product;
    var e := edges[n - 1];
    var c := ColumnsRight(EdgePiece(e, row).right, x);
    ProductZero(c);
    if i > 0 {
      PixelOfEdge(edges, n, x, row, i - 1);
      LineOfEdge(edges, n, x, row, 256 * row + i - 1, 256);
      ProductNext(Max(0, Min(e.y1, 256 * row + i - 1) - Max(e.y0, 256 * row)), c);
    }
  }

  /** The pixel's value is twice the sum of the winding numbers of its 65536 places. */
  lemma {:induction false} ValueIsArea(edges: seq<Edge>, n: nat, x: int, row: int)
    requires n <= |edges| && EdgesOk(edges) && forall k | 0 <= k < n :: Plain(edges[k], x, row)
    ensures PixelValue(edges, n, x, row) == 2 * PixelSum(edges, n, x, row, 256)
  {
    hide EdgeValue, Plain, EdgePiece, PixelSum, ColumnsRight, Product;
    if n == 0 {
      PixelOfNone(edges, x, row, 256);
    } else {
      ValueIsArea(edges, n - 1, x, row);
      PlainValue(edges[n - 1], x, row);
      PixelOfEdge(edges, n, x, row, 256);
    }
  }

  // ----- what the byte says -----

  /** A pixel that the shape winds around `w` times as a whole. */
  lemma WholeTone(rule: Rule, w: int)
    ensures Tone(rule, FULL * w) == if (if rule == NonZero then w != 0 else w % 2 != 0) then 255 else 0
  {
    var m := if w < 0 then -w else w;
    assert (if FULL * w < 0 then -(FULL * w) else FULL * w) == FULL * m;
    assert FULL * m == 2 * FULL * (m / 2) + FULL * (m % 2);
    assert (FULL * m) % (2 * FULL) == FULL * (m % 2);
  }

  lemma {:induction false} LineOfSame(edges: seq<Edge>, n: nat, x: int, row: int, py: int, j: nat, w: int)
    requires n <= |edges| && EdgesOk(edges)
    requires forall px | 256 * x <= px < 256 * x + j :: WindingAt(edges, n, row, px, py) == w
    ensures LineSum(edges, n, x, row, py, j) == j * w
  {
    hide WindingAt;
    if j > 0 {
      LineOfSame(edges, n, x, row, py, j - 1, w);
      assert j * w == (j - 1) * w + w;
    }
  }

  ghost predicate WindsAround(edges: seq<Edge>, x: int, row: int, w: int)
    requires EdgesOk(edges)
  {
    forall px, py | 256 * x <= px < 256 * x + 256 && 256 * row <= py < 256 * row + 256 ::
      WindingAt(edges, |edges|, row, px, py) == w
  }

  lemma {:induction false} PixelOfSame(edges: seq<Edge>, x: int, row: int, i: nat, w: int)
    requires EdgesOk(edges) && i <= 256 && WindsAround(edges, x, row, w)
    ensures PixelSum(edges, |edges|, x, row, i) == i * (256 * w)
  {
    hide WindingAt, LineSum;
    if i > 0 {
      PixelOfSame(edges, x, row, i - 1, w);
      LineOfSame(edges, |edges|, x, row, 256 * row + i - 1, 256, w);
      assert i * (256 * w) == (i - 1) * (256 * w) + 256 * w;
    }
  }

  /** Under NonZero a pixel the edges wind around is full unless the number is 0, under EvenOdd if it is odd. */
  lemma WholePixel(edges: seq<Edge>, rule: Rule, x: int, row: int, w: int)
    requires EdgesOk(edges) && (forall k | 0 <= k < |edges| :: Plain(edges[k], x, row)) && WindsAround(edges, x, row, w)
    ensures Coverage(edges, rule, x, row) == if (if rule == NonZero then w != 0 else w % 2 != 0) then 255 else 0
  {
    hide Coverage, Tone, PixelValue, PixelSum, WindsAround, Plain;
    CoverageIs(edges, rule, x, row);
    ValueIsArea(edges, |edges|, x, row);
    PixelOfSame(edges, x, row, 256, w);
    WholeTone(rule, w);
  }

  /** A part of a pixel as a byte. */
  function Byte(inside: int): int {
    (255 * inside + 32768) / 65536
  }

  lemma ByteOfDouble(inside: int)
    ensures (2 * inside * 255 + FULL / 2) / FULL == Byte(inside)
  {
    var k := 255 * inside + 32768;
    var q, r := k / 65536, k % 65536;
    assert 2 * inside * 255 + FULL / 2 == 2 * k;
    assert 2 * k == FULL * q + 2 * r && 0 <= 2 * r < FULL;
  }

  /** A part wound around once. */
  lemma PartTone(rule: Rule, inside: int)
    requires 0 <= inside <= 65536
    ensures Tone(rule, 2 * inside) == Tone(rule, -2 * inside) == Byte(inside)
  {
    hide Byte;
    ByteOfDouble(inside);
    assert 2 * inside < 2 * FULL;
    assert (2 * inside) % (2 * FULL) == 2 * inside;
  }

  /** And twice: more than all of a pixel is all of it, or counts down again. */
  lemma PartToneTwice(inside: int)
    requires 0 <= inside <= 65536
    ensures Tone(NonZero, 4 * inside) == Tone(NonZero, -4 * inside) == Byte(Min(2 * inside, 65536))
    ensures Tone(EvenOdd, 4 * inside) == Tone(EvenOdd, -4 * inside)
         == Byte(if inside <= 32768 then 2 * inside else 131072 - 2 * inside)
  {
    hide Byte, Tone;
    if inside <= 32768 {
      PartTone(NonZero, 2 * inside);
      PartTone(EvenOdd, 2 * inside);
    } else {
      PartTone(NonZero, 65536);
      PartTone(EvenOdd, 131072 - 2 * inside);
      Folded(4 * inside);
    }
  }

  lemma Folded(m: int)
    requires FULL < m <= 2 * FULL
    ensures Tone(NonZero, m) == Tone(NonZero, -m) == Tone(NonZero, FULL)
    ensures Tone(EvenOdd, m) == Tone(EvenOdd, -m) == Tone(EvenOdd, 2 * FULL - m)
  {
    assert m % (2 * FULL) == if m == 2 * FULL then 0 else m;
    assert (2 * FULL - m) % (2 * FULL) == 2 * FULL - m;
  }

  // ----- rectangles -----

  /** The edges a rectangle's contour leaves, level sides being dropped, for either direction and starting point. */
  ghost predicate IsRectangle(edges: seq<Edge>, r: Rect) {
    && r.x0 < r.x1 && r.y0 < r.y1
    && exists down: bool ::
         var left, right := Edge(r.x0, r.y0, r.x0, r.y1, down), Edge(r.x1, r.y0, r.x1, r.y1, !down);
         edges == [left, right] || edges == [right, left]
  }

  /** Whichever corner it starts from and whichever way it goes, a rectangle's path gives these edges. */
  lemma RectanglePath(r: Rect, clip: Rect, from: nat, clockwise: bool)
    requires r.x0 < r.x1 && r.y0 < r.y1 && from < 4 && r.y1 > 256 * clip.y0 && r.y0 < 256 * clip.y1
    ensures var p := Corner(r, from, clockwise);
            IsRectangle(Kept(p(0), p(1), clip) + Kept(p(1), p(2), clip) + Kept(p(2), p(3), clip)
                        + Kept(p(3), p(0), clip), r)
  {
    hide Kept, Corner;
    var p := Corner(r, from, clockwise);
    Sides(r, clip, from, clockwise, 0);
    Sides(r, clip, from, clockwise, 1);
    Sides(r, clip, from, clockwise, 2);
    Sides(r, clip, from, clockwise, 3);
    assert p(4) == p(0) by {
      AroundAgain(r, from, clockwise);
    }
    var left, right := Edge(r.x0, r.y0, r.x0, r.y1, !clockwise), Edge(r.x1, r.y0, r.x1, r.y1, clockwise);
    var edges := Kept(p(0), p(1), clip) + Kept(p(1), p(2), clip) + Kept(p(2), p(3), clip) + Kept(p(3), p(0), clip);
    assert edges == [left, right] || edges == [right, left];
    assert clockwise == !!clockwise;
  }

  lemma AroundAgain(r: Rect, from: nat, clockwise: bool)
    ensures Corner(r, from, clockwise)(4) == Corner(r, from, clockwise)(0)
  {
  }

  /** Top, right, bottom, left when clockwise; left, bottom, right, top otherwise. */
  lemma Sides(r: Rect, clip: Rect, from: nat, clockwise: bool, k: nat)
    requires r.x0 < r.x1 && r.y0 < r.y1 && from < 4 && k < 4 && r.y1 > 256 * clip.y0 && r.y0 < 256 * clip.y1
    ensures var p := Corner(r, from, clockwise);
            var side := (from + k) % 4;
            Kept(p(k), p(k + 1), clip)
            == if side == (if clockwise then 1 else 2) then [Edge(r.x1, r.y0, r.x1, r.y1, clockwise)]
               else if side == (if clockwise then 3 else 0) then [Edge(r.x0, r.y0, r.x0, r.y1, !clockwise)]
               else []
  {
  }

  /** The corners in order: from the top left one rightwards when clockwise, downwards otherwise. */
  function Corner(r: Rect, from: nat, clockwise: bool): nat -> Point {
    (k: nat) =>
      var c := (from + k) % 4;
      var d := if clockwise then c else (4 - c) % 4;
      Point(if d == 1 || d == 2 then r.x1 else r.x0, if d >= 2 then r.y1 else r.y0)
  }

  /** The part of a rectangle in a pixel, in 1/65536 of it. */
  function Overlap(r: Rect, x: int, row: int): int {
    Product(Lines(r.y0, r.y1, row), Lines(r.x0, r.x1, x))
  }

  lemma OverlapRange(r: Rect, x: int, row: int)
    ensures 0 <= Overlap(r, x, row) <= 65536
    ensures r.x0 <= 256 * x && 256 * x + 256 <= r.x1 && r.y0 <= 256 * row && 256 * row + 256 <= r.y1 ==>
            Overlap(r, x, row) == 65536
    ensures 256 * x + 256 <= r.x0 || r.x1 <= 256 * x || 256 * row + 256 <= r.y0 || r.y1 <= 256 * row ==>
            Overlap(r, x, row) == 0
  {
    var h, w := Lines(r.y0, r.y1, row), Lines(r.x0, r.x1, x);
    assert 0 <= h <= 256 && 0 <= w <= 256;
    ProductMonotone(0, h, w);
    ProductMonotone(h, 256, w);
  }

  lemma UprightValue(e: Edge, x: int, row: int)
    requires e.y0 < e.y1 && e.x0 == e.x1
    ensures EdgeValue(e, x, row) == Signed(e.down, 2 * Product(Lines(e.y0, e.y1, row), ColumnsRight(e.x0, x)))
  {
    hide EdgePiece, EdgeValue, Product, ColumnsRight, Lines;
    PlainByEnds(e, x, row);
    PlainValue(e, x, row);
    if Crosses(e, row) {
      UprightPiece(e, row);
    } else {
      NoLines(e, row);
      ProductZero(ColumnsRight(e.x0, x));
      ProductZero(ColumnsRight(EdgePiece(e, row).right, x));
    }
  }

  lemma NoLines(e: Edge, row: int)
    requires e.y0 < e.y1 && !Crosses(e, row)
    ensures Lines(e.y0, e.y1, row) == 0
  {
  }

  lemma BetweenSides(a: int, b: int, x: int, h: int)
    requires a < b
    ensures Product(h, ColumnsRight(a, x)) - Product(h, ColumnsRight(b, x)) == Product(h, Lines(a, b, x))
  {
    var c, d, w := ColumnsRight(a, x), ColumnsRight(b, x), Lines(a, b, x);
    assert c - d == w;
    assert h * c - h * d == h * (c - d);
  }

  lemma RectangleValue(edges: seq<Edge>, r: Rect, x: int, row: int)
    requires EdgesOk(edges) && IsRectangle(edges, r)
    ensures PixelValue(edges, |edges|, x, row) == 2 * Overlap(r, x, row)
            || PixelValue(edges, |edges|, x, row) == -2 * Overlap(r, x, row)
  {
    hide EdgeValue, ColumnsRight, Lines, Product;
    UprightValue(edges[0], x, row);
    UprightValue(edges[1], x, row);
    BetweenSides(r.x0, r.x1, x, Lines(r.y0, r.y1, row));
    assert PixelValue(edges, 1, x, row) == EdgeValue(edges[0], x, row);
    assert PixelValue(edges, 2, x, row) == EdgeValue(edges[0], x, row) + EdgeValue(edges[1], x, row);
  }

  /** A pixel's byte is 255 times the part of it inside the rectangle, rounded. */
  lemma RectangleByte(edges: seq<Edge>, r: Rect, rule: Rule, x: int, row: int)
    requires EdgesOk(edges) && IsRectangle(edges, r)
    ensures Coverage(edges, rule, x, row) == Byte(Overlap(r, x, row))
  {
    hide Coverage, Tone, PixelValue, IsRectangle, Overlap;
    CoverageIs(edges, rule, x, row);
    RectangleValue(edges, r, x, row);
    OverlapRange(r, x, row);
    PartTone(rule, Overlap(r, x, row));
  }

  /** Wholly inside it is 255. */
  lemma RectangleInside(edges: seq<Edge>, r: Rect, rule: Rule, x: int, row: int)
    requires EdgesOk(edges) && IsRectangle(edges, r)
    requires r.x0 <= 256 * x && 256 * x + 256 <= r.x1 && r.y0 <= 256 * row && 256 * row + 256 <= r.y1
    ensures Coverage(edges, rule, x, row) == 255
  {
    hide Coverage, IsRectangle, Overlap;
    RectangleByte(edges, r, rule, x, row);
    OverlapRange(r, x, row);
  }

  lemma {:induction false} ValueOfPrefix(edges: seq<Edge>, more: seq<Edge>, n: nat, x: int, row: int)
    requires n <= |edges| && EdgesOk(edges) && EdgesOk(edges + more)
    ensures PixelValue(edges + more, n, x, row) == PixelValue(edges, n, x, row)
  {
    hide EdgeValue;
    if n > 0 {
      ValueOfPrefix(edges, more, n - 1, x, row);
    }
  }

  /** The values of two lists add up. */
  lemma {:induction false} ValueConcat(edges: seq<Edge>, more: seq<Edge>, n: nat, x: int, row: int)
    requires n <= |more| && EdgesOk(edges) && EdgesOk(more) && EdgesOk(edges + more)
    ensures PixelValue(edges + more, |edges| + n, x, row)
         == PixelValue(edges, |edges|, x, row) + PixelValue(more, n, x, row)
  {
    hide EdgeValue;
    if n == 0 {
      ValueOfPrefix(edges, more, |edges|, x, row);
    } else {
      ValueConcat(edges, more, n - 1, x, row);
      assert (edges + more)[|edges| + n - 1] == more[n - 1];
    }
  }

  /** The same contour twice: under NonZero it covers at least as much, under EvenOdd the inside is outside. */
  lemma RectangleTwice(edges: seq<Edge>, r: Rect, x: int, row: int)
    requires EdgesOk(edges) && EdgesOk(edges + edges) && IsRectangle(edges, r)
    ensures var inside := Overlap(r, x, row);
            && Coverage(edges + edges, NonZero, x, row) == Byte(Min(2 * inside, 65536))
            && Coverage(edges + edges, EvenOdd, x, row)
               == Byte(if inside <= 32768 then 2 * inside else 131072 - 2 * inside)
            && (inside == 65536 ==>
                  Coverage(edges + edges, NonZero, x, row) == 255 && Coverage(edges + edges, EvenOdd, x, row) == 0)
  {
    hide Coverage, Tone, PixelValue, IsRectangle, Overlap;
    CoverageIs(edges + edges, NonZero, x, row);
    CoverageIs(edges + edges, EvenOdd, x, row);
    ValueConcat(edges, edges, |edges|, x, row);
    RectangleValue(edges, r, x, row);
    OverlapRange(r, x, row);
    PartToneTwice(Overlap(r, x, row));
  }

  // ----- slanted pieces -----

  /** How far along a slanted piece a column is. */
  function Along(p: Piece, x: int): int {
    Max(0, Min(x - p.left, p.right - p.left))
  }

  /** The height of a slanted piece left of a place, times its width: exact, where `Reach` rounds down. */
  function Exact(p: Piece, x: int): int {
    Product(Along(p, x), p.height)
  }

  /** Twice the area right of the piece in `n` columns from `x`, times its width: in each column a trapezoid. */
  ghost function Trapezoids(p: Piece, x: int, n: nat): int {
    if n == 0 then 0 else Trapezoids(p, x, n - 1) + Exact(p, x + n - 1) + Exact(p, x + n)
  }

  /** Rounding loses less than one line. */
  lemma ReachExact(p: Piece, x: int)
    requires PieceOk(p) && p.left < p.right
    ensures var w := p.right - p.left;
            Product(Reach(p, x), w) <= Exact(p, x) < Product(Reach(p, x), w) + w
  {
    hide Product;
    var w := p.right - p.left;
    ProductZero(p.height);
    ProductZero(w);
    ProductNext(p.height, w);
    DivProduct(Product(x - p.left, p.height), w);
  }

  lemma {:induction false} TrapezoidsJoin(p: Piece, x: int, m: nat, n: nat)
    ensures Trapezoids(p, x, m + n) == Trapezoids(p, x, m) + Trapezoids(p, x + m, n)
  {
    hide Exact;
    if n > 0 {
      TrapezoidsJoin(p, x, m, n - 1);
    }
  }

  /** Off the piece the columns are rectangles. */
  lemma {:induction false} FlatColumns(p: Piece, x: int, n: nat)
    requires PieceOk(p) && p.left < p.right && (x + n <= p.left || p.right <= x)
    ensures Exact(p, x + n) == Exact(p, x) && Trapezoids(p, x, n) == Product(2 * n, Exact(p, x))
  {
    hide Product;
    ProductZero(Exact(p, x));
    if n > 0 {
      FlatColumns(p, x, n - 1);
      ProductNext(2 * n - 2, Exact(p, x));
      ProductNext(2 * n - 1, Exact(p, x));
    }
  }

  /** Along it they make up one trapezoid. */
  lemma {:induction false} SlantedColumns(p: Piece, x: int, n: nat)
    requires PieceOk(p) && p.left <= x && x + n <= p.right
    ensures Exact(p, x + n) == Exact(p, x) + Product(n, p.height)
    ensures Trapezoids(p, x, n) == Product(n, Exact(p, x) + Exact(p, x + n))
  {
    hide Product;
    ProductZero(p.height);
    ProductZero(Exact(p, x) + Exact(p, x));
    if n > 0 {
      SlantedColumns(p, x, n - 1);
      ProductNext(n - 1, p.height);
      ProductNext(x + n - 1 - p.left, p.height);
      OneMoreColumn(n - 1, Exact(p, x), p.height);
    }
  }

  lemma OneMoreColumn(n: int, s: int, h: int)
    ensures Product(n, s + (s + Product(n, h))) + (s + Product(n, h)) + (s + Product(n, h) + h)
         == Product(n + 1, s + (s + Product(n, h) + h))
  {
    var t := n * h;
    assert (n + 1) * (s + (s + t + h)) == n * (s + (s + t)) + n * h + (s + (s + t + h));
  }

  /** The whole pixel: up to the piece, along it, and after it. */
  lemma PixelColumns(p: Piece, x: int)
    requires PieceOk(p) && p.left < p.right && p.left < x + 256 && x < p.right
    ensures var a, b := Max(p.left, x), Min(p.right, x + 256);
            Trapezoids(p, x, 256)
            == Product(512 - (a - x) - (b - x), Exact(p, b)) + Product((a - x) + (b - x), Exact(p, a))
  {
    hide Product, Trapezoids;
    var a, b := Max(p.left, x), Min(p.right, x + 256);
    TrapezoidsJoin(p, x, a - x, 256 - (a - x));
    TrapezoidsJoin(p, a, b - a, x + 256 - b);
    FlatFront(p, x);
    SlantedColumns(p, a, b - a);
    FlatBack(p, b, x + 256 - b);
    ThreeParts(a - x, b - x, Exact(p, a), Exact(p, b));
  }

  lemma FlatFront(p: Piece, x: int)
    requires PieceOk(p) && p.left < p.right
    ensures var a := Max(p.left, x); Trapezoids(p, x, a - x) == Product(2 * (a - x), Exact(p, a))
  {
    hide Product;
    var a := Max(p.left, x);
    if x < p.left {
      FlatColumns(p, x, a - x);
    }
    ProductZero(Exact(p, a));
  }

  lemma FlatBack(p: Piece, b: int, n: nat)
    requires PieceOk(p) && p.left < p.right && (n == 0 || p.right <= b)
    ensures Trapezoids(p, b, n) == Product(2 * n, Exact(p, b))
  {
    hide Product;
    ProductZero(Exact(p, b));
    if n > 0 {
      FlatColumns(p, b, n);
    }
  }

  lemma ThreeParts(a: int, b: int, s: int, t: int)
    ensures Product(2 * a, s) + Product(b - a, s + t) + Product(2 * (256 - b), t)
         == Product(512 - a - b, t) + Product(a + b, s)
  {
    assert 2 * a * s + (b - a) * (s + t) + 2 * (256 - b) * t == (512 - a - b) * t + (a + b) * s;
  }

  /** What a slanted piece contributes to a pixel is the exact area right of it, less than 1/256 pixel short. */
  lemma SlantedArea(p: Piece, x: int)
    requires PieceOk(p) && p.left < p.right
    ensures var w := p.right - p.left;
            var v := Product(512 * Reach(p, x + 256) - AreaIn(p, x), w);
            v <= Trapezoids(p, x, 256) < v + 512 * w
  {
    hide Product, Trapezoids, Exact, Reach;
    var w := p.right - p.left;
    if x + 256 <= p.left || p.right <= x {
      OutsideArea(p, x);
    } else {
      var a, b := Max(p.left, x), Min(p.right, x + 256);
      PixelColumns(p, x);
      ReachPast(p, x);
      ReachExact(p, a);
      ReachExact(p, b);
      Weighted((a - x) + (b - x), Reach(p, a), Reach(p, b), Exact(p, a), Exact(p, b), w);
    }
  }

  lemma ReachPast(p: Piece, x: int)
    requires PieceOk(p) && p.left < p.right && p.left < x + 256 && x < p.right
    ensures Reach(p, x + 256) == Reach(p, Min(p.right, x + 256))
  {
    hide Rise;
  }

  lemma OutsideArea(p: Piece, x: int)
    requires PieceOk(p) && p.left < p.right && (x + 256 <= p.left || p.right <= x)
    ensures Product(512 * Reach(p, x + 256) - AreaIn(p, x), p.right - p.left) == Trapezoids(p, x, 256)
  {
    hide Product, Trapezoids, Rise;
    var w := p.right - p.left;
    FlatColumns(p, x, 256);
    ProductZero(w);
    ProductZero(p.height);
    assert Reach(p, x + 256) == if x + 256 <= p.left then 0 else p.height;
    assert AreaIn(p, x) == 0;
    Scaled(p.height, w);
  }

  lemma Scaled(h: int, w: int)
    ensures Product(512 * h, w) == Product(2 * 256, Product(w, h)) && Product(2 * 256, 0) == 0
  {
    assert 512 * h * w == 512 * (w * h);
  }

  /** Two roundings weighed against each other with weights that sum to 512. */
  lemma Weighted(c: int, ra: int, rb: int, sa: int, sb: int, w: int)
    requires 0 <= c <= 512 && w > 0
    requires Product(ra, w) <= sa < Product(ra, w) + w && Product(rb, w) <= sb < Product(rb, w) + w
    ensures var v := Product(512 * rb - Product(rb - ra, c), w);
            v <= Product(512 - c, sb) + Product(c, sa) < v + 512 * w
  {
    var v := Product(512 * rb - Product(rb - ra, c), w);
    var ea, eb := sa - Product(ra, w), sb - Product(rb, w);
    assert v == (512 - c) * (rb * w) + c * (ra * w);
    assert (512 - c) * sb + c * sa == v + eb * (512 - c) + ea * c;
    WeightedErrors(c, ea, eb, w);
  }

  lemma WeightedErrors(c: int, ea: int, eb: int, w: int)
    requires 0 <= c <= 512 && 0 <= ea < w && 0 <= eb < w
    ensures 0 <= Product(eb, 512 - c) + Product(ea, c) < 512 * w
  {
    hide Product;
    ProductZero(c);
    ProductZero(512 - c);
    ProductMonotone(0, ea, c);
    ProductMonotone(ea, w - 1, c);
    ProductMonotone(0, eb, 512 - c);
    ProductMonotone(eb, w - 1, 512 - c);
    SumOfParts(w - 1, c);
  }

  lemma SumOfParts(w: int, c: int)
    ensures Product(w, 512 - c) + Product(w, c) == 512 * w
  {
  }

  /** Along an edge x is off the line by less than one unit, towards the upper end. */
  lemma EdgeXClose(e: Edge, y: int)
    requires e.y0 <= y <= e.y1 && e.y0 < e.y1
    ensures var h := e.y1 - e.y0;
            var off := Product(y - e.y0, e.x1 - e.x0) - Product(EdgeXAt(e, y) - e.x0, h);
            if e.x0 <= e.x1 then 0 <= off < h else -h < off <= 0
  {
    hide Product;
    var h, k, d := e.y1 - e.y0, y - e.y0, e.x1 - e.x0;
    if y == e.y0 {
      ProductZero(h);
      ProductZero(d);
    } else if y == e.y1 {
      ProductNext(h, d);
    } else {
      QuotClose(k, d, h);
    }
  }

  lemma QuotClose(k: int, d: int, h: int)
    requires k >= 0 && h > 0
    ensures var off := Product(k, d) - Product(Quot(Product(k, d), h), h);
            if d >= 0 then 0 <= off < h else -h < off <= 0
  {
    hide Product;
    var m := if d >= 0 then d else -d;
    ProductNegate(k, m);
    ProductMonotone(0, k, m);
    ProductZero(m);
    DivProduct(Product(k, m), h);
    Negated(Product(k, m) / h, h);
  }

  lemma Negated(q: int, h: int)
    ensures Product(-q, h) == -Product(q, h)
  {
  }
}
