/** The exact-area coverage of a pixel, said without clips, bands or cells. */
module RasterSpec {
  import opened Products


  const FULL := 131072

  /** An edge from (x0, y0) down to (x1, y1), in 1/256 pixel; `down` is its original direction. */
  datatype Edge = Edge(x0: int, y0: int, x1: int, y1: int, down: bool)

  datatype Rule = NonZero | EvenOdd

  function Signed(down: bool, v: int): int {
    if down then v else -v
  }

  /** Division as C does it, towards zero. */
  function Quot(a: int, d: int): int
    requires d > 0
  {
    if a >= 0 then a / d else -((-a) / d)
  }

  // ----- straight pieces -----

  /** How far a line of height `h` over width `w` has risen after `dx`, rounded down. */
  function Rise(dx: int, h: int, w: int): int
    requires w > 0
  {
    Product(dx, h) / w
  }

  lemma RiseBounds(a: int, b: int, h: int, w: int)
    requires 0 <= a <= b <= w && w > 0 && h >= 0
    ensures 0 <= Rise(a, h, w) <= Rise(b, h, w) <= h && Rise(0, h, w) == 0 && Rise(w, h, w) == h
  {
    hide Product;
    ProductMonotone(0, a, h);
    ProductMonotone(a, b, h);
    ProductMonotone(b, w, h);
    assert Product(0, h) == 0 by {
      ProductZero(h);
    }
    DivMonotone(0, Product(a, h), w);
    DivMonotone(Product(a, h), Product(b, h), w);
    DivMonotone(Product(b, h), Product(w, h), w);
    MultipleOf(h, w);
  }

  /** A piece of edge inside one pixel row, left end to right end. */
  datatype Piece = Piece(left: int, right: int, height: int)

  ghost predicate PieceOk(p: Piece) {
    p.left <= p.right && 0 <= p.height <= 256
  }

  /** How much of the piece's height lies left of `x`. An upright piece counts once `x` is past it. */
  function Reach(p: Piece, x: int): int {
    if p.left == p.right then if p.left < x then p.height else 0
    else if x <= p.left then 0
    else if x >= p.right then p.height
    else if p.left < p.right then Rise(x - p.left, p.height, p.right - p.left)
    else 0
  }

  lemma ReachMonotone(p: Piece, x: int, y: int)
    requires PieceOk(p) && x <= y
    ensures 0 <= Reach(p, x) <= Reach(p, y) <= p.height
  {
    hide Rise;
    if p.left < p.right {
      var w := p.right - p.left;
      var a, b := if x <= p.left then 0 else if x >= p.right then w else x - p.left, if y <= p.left then 0
        else if y >= p.right then w else y - p.left;
      RiseBounds(a, b, p.height, w);
    }
  }

  function Max(a: int, b: int): int {
    if a > b then a else b
  }

  function Min(a: int, b: int): int {
    if a < b then a else b
  }

  /** The piece's height inside the pixel from `x`, times the sum of its end points' distances from the pixel's left
      side. */
  function AreaIn(p: Piece, x: int): int {
    if p.left == p.right then
      if x <= p.left < x + 256 then Product(p.height, (p.left - x) * 2) else 0
    else
      var a, b := Max(p.left, x), Min(p.right, x + 256);
      if a < b then Product(Reach(p, b) - Reach(p, a), (a - x) + (b - x)) else 0
  }

  lemma AreaBound(p: Piece, x: int)
    requires PieceOk(p)
    ensures 0 <= AreaIn(p, x) <= FULL
  {
    hide Reach;
    if p.left == p.right {
      if x <= p.left < x + 256 {
        ProductBound(p.height, (p.left - x) * 2);
      }
    } else {
      var a, b := Max(p.left, x), Min(p.right, x + 256);
      if a < b {
        ReachMonotone(p, a, b);
        ProductBound(Reach(p, b) - Reach(p, a), (a - x) + (b - x));
      }
    }
  }

  lemma ProductBound(a: int, b: int)
    requires 0 <= a <= 256 && 0 <= b <= 512
    ensures 0 <= Product(a, b) <= FULL
  {
    ProductMonotone(0, a, b);
    ProductMonotone(a, 256, b);
  }

  /** Moving the piece and the place by the same amount changes nothing. */
  lemma ReachShift(p: Piece, x: int, k: int)
    ensures Reach(Piece(p.left - k, p.right - k, p.height), x - k) == Reach(p, x)
    ensures AreaIn(Piece(p.left - k, p.right - k, p.height), x - k) == AreaIn(p, x)
  {
    hide Rise, Product;
    var q := Piece(p.left - k, p.right - k, p.height);
    ReachShiftOnly(p, x, k);
    if p.left != p.right {
      var a, b := Max(p.left, x), Min(p.right, x + 256);
      ReachShiftOnly(p, a, k);
      ReachShiftOnly(p, b, k);
    }
  }

  lemma ReachShiftOnly(p: Piece, x: int, k: int)
    ensures Reach(Piece(p.left - k, p.right - k, p.height), x - k) == Reach(p, x)
  {
    hide Rise;
  }

  // ----- edges -----

  function EdgeXAt(e: Edge, y: int): int
    requires e.y0 < e.y1
  {
    if y == e.y0 then e.x0 else if y == e.y1 then e.x1 else e.x0 + Quot(Product(y - e.y0, e.x1 - e.x0), e.y1 - e.y0)
  }

  ghost predicate Crosses(e: Edge, row: int) {
    e.y0 < 256 * row + 256 && 256 * row < e.y1
  }

  function PieceOf(xa: int, ya: int, xb: int, yb: int): Piece {
    Piece(Min(xa, xb), Max(xa, xb), if yb >= ya then yb - ya else ya - yb)
  }

  /** The part of an edge inside a pixel row. */
  ghost function EdgePiece(e: Edge, row: int): Piece
    requires e.y0 < e.y1
  {
    var ya, yb := Max(e.y0, 256 * row), Min(e.y1, 256 * row + 256);
    PieceOf(EdgeXAt(e, ya), ya, EdgeXAt(e, yb), yb)
  }

  ghost predicate EdgesOk(edges: seq<Edge>) {
    forall i | 0 <= i < |edges| :: edges[i].y0 < edges[i].y1
  }

  /** The signed height of an edge left of `x` in a row. */
  ghost function EdgeReach(e: Edge, row: int, x: int): int
    requires e.y0 < e.y1
  {
    if Crosses(e, row) then Signed(e.down, Reach(EdgePiece(e, row), x)) else 0
  }

  ghost function EdgeArea(e: Edge, row: int, x: int): int
    requires e.y0 < e.y1
  {
    if Crosses(e, row) then Signed(e.down, AreaIn(EdgePiece(e, row), x)) else 0
  }

  /** Over the first `n` edges, up to the right side of pixel `x`. */
  ghost function Winding(edges: seq<Edge>, n: nat, x: int, row: int): int
    requires n <= |edges| && EdgesOk(edges)
  {
    if n == 0 then 0 else Winding(edges, n - 1, x, row) + EdgeReach(edges[n - 1], row, 256 * x + 256)
  }

  ghost function AreaSum(edges: seq<Edge>, n: nat, x: int, row: int): int
    requires n <= |edges| && EdgesOk(edges)
  {
    if n == 0 then 0 else AreaSum(edges, n - 1, x, row) + EdgeArea(edges[n - 1], row, 256 * x)
  }

  /** The fill rule, and rounding to a byte. */
  function Tone(rule: Rule, v: int): (t: int)
    ensures 0 <= t <= 255
  {
    var m := if v < 0 then -v else v;
    var c := match rule
      case NonZero => Min(m, FULL)
      case EvenOdd => var k := m % (2 * FULL); if k > FULL then 2 * FULL - k else k;
    (c * 255 + FULL / 2) / FULL
  }

  /** The coverage of pixel (x, row): it mentions neither a clip nor a band. */
  ghost function Coverage(edges: seq<Edge>, rule: Rule, x: int, row: int): int
    requires EdgesOk(edges)
  {
    Tone(rule, 512 * Winding(edges, |edges|, x, row) - AreaSum(edges, |edges|, x, row))
  }

  lemma PieceIsOk(e: Edge, row: int)
    requires e.y0 < e.y1 && Crosses(e, row)
    ensures PieceOk(EdgePiece(e, row))
  {
    hide EdgeXAt;
  }

  /** No sum exceeds the 32-bit cells: at most 2^8 of height and 2^17 of area for each edge. */
  lemma {:induction false} SumsFit(edges: seq<Edge>, n: nat, x: int, row: int)
    requires n <= |edges| && EdgesOk(edges)
    ensures -256 * n <= Winding(edges, n, x, row) <= 256 * n
    ensures -256 * n <= Winding(edges, n, x, row) - Winding(edges, n, x - 1, row) <= 256 * n
    ensures -FULL * n <= AreaSum(edges, n, x, row) <= FULL * n
  {
    hide EdgePiece, Reach, AreaIn, Crosses;
    if n > 0 {
      SumsFit(edges, n - 1, x, row);
      var e := edges[n - 1];
      if Crosses(e, row) {
        PieceIsOk(e, row);
        ReachMonotone(EdgePiece(e, row), 256 * (x - 1) + 256, 256 * x + 256);
        AreaBound(EdgePiece(e, row), 256 * x);
      }
    }
  }

  // ----- interpolation stays small -----

  /** Coordinates as the flattener clamps them. */
  const COORD_LIMIT := 0x4000_0000

  ghost predicate InLimits(e: Edge) {
    && -COORD_LIMIT <= e.x0 <= COORD_LIMIT && -COORD_LIMIT <= e.x1 <= COORD_LIMIT
    && -COORD_LIMIT <= e.y0 <= COORD_LIMIT && -COORD_LIMIT <= e.y1 <= COORD_LIMIT
  }

  /** Along an edge x stays between the ends. */
  lemma EdgeXBetween(e: Edge, y: int)
    requires e.y0 <= y <= e.y1 && e.y0 < e.y1
    ensures Min(e.x0, e.x1) <= EdgeXAt(e, y) <= Max(e.x0, e.x1)
  {
    hide Product;
    var k, w, d := y - e.y0, e.y1 - e.y0, e.x1 - e.x0;
    var m := if d >= 0 then d else -d;
    RiseBounds(k, k, m, w);
    ProductNegate(k, m);
    ProductMonotone(0, k, m);
    ProductZero(m);
  }

  /** The piece of an edge in a row lies between the edge's ends. */
  lemma PieceBetween(e: Edge, row: int)
    requires e.y0 < e.y1 && Crosses(e, row)
    ensures var p := EdgePiece(e, row); Min(e.x0, e.x1) <= p.left <= p.right <= Max(e.x0, e.x1)
  {
    hide EdgeXAt;
    EdgeXBetween(e, Max(e.y0, 256 * row));
    EdgeXBetween(e, Min(e.y1, 256 * row + 256));
  }

  lemma ProductWithin(a: int, b: int, m: int, n: int)
    requires 0 <= a <= m && -n <= b <= n && n > 0
    ensures -Product(m, n) <= Product(a, b) <= Product(m, n)
    ensures a < m ==> -Product(m, n) < Product(a, b) < Product(m, n)
  {
    hide Product;
    var c := if b >= 0 then b else -b;
    ProductNegate(a, c);
    ProductNext(a, c);
    ProductNext(a, n);
    ProductMonotone(c, n, a);
    ProductMonotone(0, c, a);
    ProductZero(a);
    ProductMonotone(a, m, n);
    if a < m {
      ProductMonotone(a + 1, m, n);
    }
  }

  /** Both interpolations multiply numbers whose product stays below 2^62: x along the edge, where it is
      interpolated at all, and y along the piece in one row. */
  lemma InterpolationFits(e: Edge, y: int, row: int, x: int)
    requires e.y0 < y < e.y1 && InLimits(e) && Crosses(e, row)
    requires EdgePiece(e, row).left <= x <= EdgePiece(e, row).right
    ensures -0x4000_0000_0000_0000 < Product(y - e.y0, e.x1 - e.x0) < 0x4000_0000_0000_0000
    ensures -0x80_0000_0000 <= Product(x - EdgePiece(e, row).left, EdgePiece(e, row).height) <= 0x80_0000_0000
  {
    hide EdgePiece;
    ProductWithin(y - e.y0, e.x1 - e.x0, 2 * COORD_LIMIT, 2 * COORD_LIMIT);
    PieceBetween(e, row);
    PieceIsOk(e, row);
    ProductWithin(x - EdgePiece(e, row).left, EdgePiece(e, row).height, 2 * COORD_LIMIT, 256);
  }
}
