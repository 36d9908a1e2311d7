/** The scan converter: edges are cut at rows and cells, accumulated in bands, and swept into coverage bytes. */
module Raster {
  import opened Products
  import opened RasterSpec
  import opened Statuses

  const BAND_ROWS := 16
  const BAND_MAX_CELLS := 131072
  const MAX_EDGES := 8192

  // ----- cells of a row -----

  ghost function Prefix(s: seq<int>, n: nat): int
    requires n <= |s|
  {
    if n == 0 then 0 else Prefix(s, n - 1) + s[n - 1]
  }

  lemma {:induction false} PrefixUpdate(s: seq<int>, c: nat, v: int, n: nat)
    requires c < |s| && n <= |s|
    ensures Prefix(s[c := v], n) == Prefix(s, n) + if c < n then v - s[c] else 0
  {
    if n > 0 {
      PrefixUpdate(s, c, v, n - 1);
    }
  }

  ghost function Row(a: array2<int>, r: nat): (s: seq<int>)
    requires r < a.Length0
    reads a
    ensures |s| == a.Length1 && forall c | 0 <= c < |s| :: s[c] == a[r, c]
  {
    seq(a.Length1, c requires 0 <= c < a.Length1 reads a => a[r, c])
  }

  /** Half of what a 32-bit cell can hold. */
  const CELL_LIMIT := 0x4000_0000

  ghost predicate Fits(v: int) {
    -CELL_LIMIT <= v <= CELL_LIMIT
  }

  ghost predicate RowFits(s: seq<int>) {
    forall c | 0 <= c < |s| :: Fits(s[c])
  }

  /** Each cell has room for one more piece, of height 256 and area 2^17 at most. */
  ghost predicate Room(cv: seq<int>, ar: seq<int>) {
    |cv| == |ar| && forall c | 0 <= c < |cv| :: RoomAt(cv[c], ar[c])
  }

  ghost predicate RoomAt(cover: int, area: int) {
    256 - CELL_LIMIT <= cover <= CELL_LIMIT - 256 && FULL - CELL_LIMIT <= area <= CELL_LIMIT - FULL
  }

  /** Adds to one cell. No sum that is ever stored leaves the range of a 32-bit cell. */
  method Bump(a: array2<int>, r: nat, c: nat, d: int)
    requires r < a.Length0 && c < a.Length1 && Fits(a[r, c] + d)
    modifies a
    ensures Row(a, r) == old(Row(a, r))[c := old(Row(a, r))[c] + d]
    ensures forall q | 0 <= q < a.Length0 && q != r :: Row(a, q) == old(Row(a, q))
  {
    a[r, c] := a[r, c] + d;
  }

  /** The cells' cover sums have grown by the piece's height left of each cell's right side, or of `x` if that is
      nearer. */
  ghost predicate CoverUpTo(was: seq<int>, now: seq<int>, p: Piece, down: bool, x: int) {
    |was| == |now| && forall c | 0 <= c < |now| ::
      Prefix(now, c + 1) == Prefix(was, c + 1) + Signed(down, Reach(p, Min(256 * c + 256, x)))
  }

  ghost predicate CoverAdded(was: seq<int>, now: seq<int>, p: Piece, down: bool) {
    |was| == |now| && forall c | 0 <= c < |now| ::
      Prefix(now, c + 1) == Prefix(was, c + 1) + Signed(down, Reach(p, 256 * c + 256))
  }

  /** The cells before `n` have the piece's area added. */
  ghost predicate AreaAdded(was: seq<int>, now: seq<int>, p: Piece, down: bool, n: int) {
    |was| == |now| && forall c | 0 <= c < |now| ::
      now[c] == was[c] + if c < n then Signed(down, AreaIn(p, 256 * c)) else 0
  }

  lemma NothingYet(was: seq<int>, p: Piece, down: bool, x: int)
    requires x <= p.left <= p.right
    ensures CoverUpTo(was, was, p, down, x)
  {
    hide Prefix;
  }

  lemma CoverDone(was: seq<int>, now: seq<int>, p: Piece, down: bool, x: int)
    requires CoverUpTo(was, now, p, down, x) && p.left < p.right && (x >= p.right || x >= 256 * |was|)
    ensures CoverAdded(was, now, p, down)
  {
    hide Prefix, Rise;
  }

  /** Adding to a cell the height between two places in it moves the mark from one to the other. */
  lemma CoverStep(was: seq<int>, now: seq<int>, p: Piece, down: bool, c: nat, x: int, y: int)
    requires CoverUpTo(was, now, p, down, x) && c < |now| && 256 * c <= x <= y <= 256 * c + 256
    ensures CoverUpTo(was, now[c := now[c] + Signed(down, Reach(p, y) - Reach(p, x))], p, down, y)
  {
    hide Prefix, Reach;
    var d := Signed(down, Reach(p, y) - Reach(p, x));
    forall j | 0 <= j < |now| ensures Prefix(now[c := now[c] + d], j + 1)
      == Prefix(was, j + 1) + Signed(down, Reach(p, Min(256 * j + 256, y))) {
      PrefixUpdate(now, c, now[c] + d, j + 1);
    }
  }

  /** Everything left of the band goes to the first cell. */
  lemma CoverLeft(was: seq<int>, p: Piece, down: bool)
    requires |was| > 0 && p.left < 0
    ensures CoverUpTo(was, was[0 := was[0] + Signed(down, Reach(p, 0))], p, down, 0)
  {
    hide Prefix, Reach;
    var d := Signed(down, Reach(p, 0));
    forall j | 0 <= j < |was| ensures Prefix(was[0 := was[0] + d], j + 1)
      == Prefix(was, j + 1) + Signed(down, Reach(p, Min(256 * j + 256, 0))) {
      PrefixUpdate(was, 0, was[0] + d, j + 1);
    }
  }

  /** A piece that counts as a whole from one cell on. */
  lemma CoverWhole(was: seq<int>, p: Piece, down: bool, c: nat)
    requires c < |was| && p.left <= p.right
    requires forall j | 0 <= j < |was| :: Reach(p, 256 * j + 256) == if c <= j then p.height else 0
    ensures CoverAdded(was, was[c := was[c] + Signed(down, p.height)], p, down)
  {
    hide Prefix, Reach;
    forall j | 0 <= j < |was| ensures Prefix(was[c := was[c] + Signed(down, p.height)], j + 1)
      == Prefix(was, j + 1) + Signed(down, Reach(p, 256 * j + 256)) {
      PrefixUpdate(was, c, was[c] + Signed(down, p.height), j + 1);
    }
  }

  /** While a piece is being added no cover cell is more than 256 away from where it was. */
  lemma CoverMoved(was: seq<int>, now: seq<int>, p: Piece, down: bool, x: int, c: nat)
    requires CoverUpTo(was, now, p, down, x) && PieceOk(p) && c < |now|
    ensures was[c] - 256 <= now[c] <= was[c] + 256
  {
    hide Reach, Prefix;
    CellOfPrefix(was, c);
    CellOfPrefix(now, c);
    assert Prefix(now, c + 1) == Prefix(was, c + 1) + Signed(down, Reach(p, Min(256 * c + 256, x)));
    ReachMonotone(p, Min(256 * c, x), Min(256 * c + 256, x));
    if c > 0 {
      var b := c - 1;
      assert Prefix(now, b + 1) == Prefix(was, b + 1) + Signed(down, Reach(p, Min(256 * b + 256, x)));
    }
  }

  lemma CellOfPrefix(s: seq<int>, c: nat)
    requires c < |s|
    ensures Prefix(s, c + 1) == Prefix(s, c) + s[c] && Prefix(s, 0) == 0
  {
  }

  /** Nor an area cell more than 2^17. */
  lemma AreaMoved(was: seq<int>, now: seq<int>, p: Piece, down: bool, n: int, c: nat)
    requires AreaAdded(was, now, p, down, n) && PieceOk(p) && c < |now|
    ensures was[c] - FULL <= now[c] <= was[c] + FULL
  {
    hide AreaIn;
    AreaBound(p, 256 * c);
  }

  /** An update that keeps to the piece fits the cell it changes. */
  lemma BumpFits(cv: seq<int>, ar: seq<int>, now: seq<int>, p: Piece, down: bool, x: int, c: nat, v: int)
    requires Room(cv, ar) && PieceOk(p) && c < |now| && CoverUpTo(cv, now[c := v], p, down, x)
    ensures Fits(v)
  {
    hide CoverUpTo, PieceOk;
    assert |cv| == |now| by {
      SameLength(cv, now[c := v], p, down, x);
    }
    CoverMoved(cv, now[c := v], p, down, x, c);
    assert RoomAt(cv[c], ar[c]);
  }

  lemma SameLength(was: seq<int>, now: seq<int>, p: Piece, down: bool, x: int)
    requires CoverUpTo(was, now, p, down, x)
    ensures |was| == |now|
  {
  }

  lemma AreaFits(cv: seq<int>, ar: seq<int>, now: seq<int>, p: Piece, down: bool, n: int, c: nat, v: int)
    requires Room(cv, ar) && PieceOk(p) && c < |now| && AreaAdded(ar, now[c := v], p, down, n)
    ensures Fits(v)
  {
    hide AreaIn;
    AreaMoved(ar, now[c := v], p, down, n, c);
    assert RoomAt(cv[c], ar[c]);
  }

  lemma WholeFits(cv: seq<int>, ar: seq<int>, p: Piece, down: bool, c: nat)
    requires Room(cv, ar) && PieceOk(p) && c < |cv|
    ensures Fits(cv[c] + Signed(down, p.height))
  {
    assert RoomAt(cv[c], ar[c]);
  }

  // ----- one piece -----

  /** y of the segment at `x`, exact at both ends. */
  function SegYAtX(xa: int, ya: int, xb: int, yb: int, x: int): int
    requires xa < xb
  {
    if x == xa then ya else if x == xb then yb else ya + Quot(Product(x - xa, yb - ya), xb - xa)
  }

  function Distance(a: int, b: int): int {
    if a >= b then a - b else b - a
  }

  /** The height between two places on the segment is the difference of what lies left of them. */
  lemma SegHeight(xa: int, ya: int, xb: int, yb: int, x: int, y: int)
    requires xa < xb && xa <= x <= y <= xb && 0 <= ya <= 256 && 0 <= yb <= 256
    ensures var p := PieceOf(xa, ya, xb, yb);
            Distance(SegYAtX(xa, ya, xb, yb, y), SegYAtX(xa, ya, xb, yb, x)) == Reach(p, y) - Reach(p, x)
  {
    hide Product, Rise, SegYAtX;
    var p := PieceOf(xa, ya, xb, yb);
    SegIsRise(xa, ya, xb, yb, x);
    SegIsRise(xa, ya, xb, yb, y);
    RiseBounds(x - xa, y - xa, p.height, xb - xa);
  }

  lemma SegIsRise(xa: int, ya: int, xb: int, yb: int, x: int)
    requires xa < xb && xa <= x <= xb
    ensures var h := Distance(ya, yb);
            SegYAtX(xa, ya, xb, yb, x) == if yb >= ya then ya + Rise(x - xa, h, xb - xa)
              else ya - Rise(x - xa, h, xb - xa)
  {
    var h := Distance(ya, yb);
    RiseBounds(0, 0, h, xb - xa);
    ProductSign(x - xa, yb - ya);
  }

  lemma ProductSign(a: int, b: int)
    requires a >= 0
    ensures Product(a, -b) == -Product(a, b) && (b >= 0 ==> Product(a, b) >= 0)
  {
  }

  /** Adds one row-local piece, in coordinates relative to the band's left side. */
  method AddRowPiece(cover: array2<int>, area: array2<int>, r: nat, x0: int, y0: int, x1: int, y1: int, down: bool)
    requires cover != area && cover.Length0 == area.Length0 && cover.Length1 == area.Length1
    requires r < cover.Length0 && cover.Length1 > 0 && 0 <= y0 <= 256 && 0 <= y1 <= 256
    requires Room(Row(cover, r), Row(area, r))
    modifies cover, area
    ensures CoverAdded(old(Row(cover, r)), Row(cover, r), PieceOf(x0, y0, x1, y1), down)
    ensures AreaAdded(old(Row(area, r)), Row(area, r), PieceOf(x0, y0, x1, y1), down, cover.Length1)
    ensures forall q | 0 <= q < cover.Length0 && q != r ::
            Row(cover, q) == old(Row(cover, q)) && Row(area, q) == old(Row(area, q))
  {
    hide Prefix, Rise, Product, Row, SegYAtX, CoverUpTo, CoverAdded, AreaAdded, Reach, AreaIn;
    var xa, ya, xb, yb := x0, y0, x1, y1;
    if xa > xb {
      xa, ya, xb, yb := x1, y1, x0, y0;
    }
    ghost var p := PieceOf(x0, y0, x1, y1);
    assert p == PieceOf(xa, ya, xb, yb) && p == Piece(xa, xb, Distance(yb, ya));
    var w := cover.Length1;
    ghost var cover0, area0 := Row(cover, r), Row(area, r);
    if xb <= 0 {
      AllLeft(cover0, area0, p, down);
      WholeFits(cover0, area0, p, down, 0);
      Bump(cover, r, 0, Signed(down, Distance(yb, ya)));
    } else if xa >= 256 * w {
      AllRight(cover0, area0, p, down);
    } else if xa == xb {
      var c := xa / 256;
      Upright(cover0, area0, p, down);
      WholeFits(cover0, area0, p, down, c);
      AreaFits(cover0, area0, area0, p, down, w, c, area0[c] + Signed(down, Product(Distance(yb, ya), xa % 256 * 2)));
      Bump(cover, r, c, Signed(down, Distance(yb, ya)));
      Bump(area, r, c, Signed(down, Product(Distance(yb, ya), xa % 256 * 2)));
    } else {
      AddSlanted(cover, area, r, xa, ya, xb, yb, down);
    }
  }

  /** The general case, cell by cell. Every height is taken on the one segment as given. */
  method AddSlanted(cover: array2<int>, area: array2<int>, r: nat, xa: int, ya: int, xb: int, yb: int, down: bool)
    requires cover != area && cover.Length0 == area.Length0 && cover.Length1 == area.Length1
    requires r < cover.Length0 && cover.Length1 > 0 && 0 <= ya <= 256 && 0 <= yb <= 256
    requires xa < xb && 0 < xb && xa < 256 * cover.Length1
    requires Room(Row(cover, r), Row(area, r))
    modifies cover, area
    ensures CoverAdded(old(Row(cover, r)), Row(cover, r), PieceOf(xa, ya, xb, yb), down)
    ensures AreaAdded(old(Row(area, r)), Row(area, r), PieceOf(xa, ya, xb, yb), down, cover.Length1)
    ensures forall q | 0 <= q < cover.Length0 && q != r ::
            Row(cover, q) == old(Row(cover, q)) && Row(area, q) == old(Row(area, q))
  {
    hide Prefix, Rise, Product, Row, SegYAtX, CoverUpTo, CoverAdded, AreaAdded, Reach, AreaIn;
    ghost var p := PieceOf(xa, ya, xb, yb);
    ghost var cover0, area0 := Row(cover, r), Row(area, r);
    var w := cover.Length1;
    var lo, hi := xa, Min(xb, 256 * w);
    if xa < 0 {
      SegHeight(xa, ya, xb, yb, xa, 0);
      ReachAtLeft(p);
      SegAtLeft(xa, ya, xb, yb);
      CoverLeft(cover0, p, down);
      BumpFits(cover0, area0, cover0, p, down, 0, 0, cover0[0] + Signed(down, Reach(p, 0)));
      Bump(cover, r, 0, Signed(down, Distance(SegYAtX(xa, ya, xb, yb, 0), ya)));
      lo := 0;
    } else {
      NothingYet(cover0, p, down, lo);
    }
    var c0, c1 := lo / 256, (hi - 1) / 256;
    NoAreaBefore(area0, p, down, c0);
    var c := c0;
    while c <= c1
      invariant c0 <= c <= c1 + 1
      invariant CoverUpTo(cover0, Row(cover, r), p, down, if c <= c1 then Max(lo, 256 * c) else hi)
      invariant AreaAdded(area0, Row(area, r), p, down, c)
      invariant forall q | 0 <= q < cover.Length0 && q != r ::
                Row(cover, q) == old(Row(cover, q)) && Row(area, q) == old(Row(area, q))
    {
      var xl, xr := Max(lo, 256 * c), Min(hi, 256 * c + 256);
      SegHeight(xa, ya, xb, yb, xl, xr);
      CoverStep(cover0, Row(cover, r), p, down, c, xl, xr);
      AreaStep(area0, Row(area, r), p, down, c, xl, xr);
      var dy := Distance(SegYAtX(xa, ya, xb, yb, xr), SegYAtX(xa, ya, xb, yb, xl));
      ghost var da := Signed(down, Product(dy, (xl - 256 * c) + (xr - 256 * c)));
      BumpFits(cover0, area0, Row(cover, r), p, down, xr, c, Row(cover, r)[c] + Signed(down, dy));
      AreaFits(cover0, area0, Row(area, r), p, down, c + 1, c, Row(area, r)[c] + da);
      Bump(cover, r, c, Signed(down, dy));
      Bump(area, r, c, Signed(down, Product(dy, (xl - 256 * c) + (xr - 256 * c))));
      c := c + 1;
    }
    CoverDone(cover0, Row(cover, r), p, down, hi);
    NoAreaAfter(area0, Row(area, r), p, down, c);
  }

  lemma SegAtLeft(xa: int, ya: int, xb: int, yb: int)
    requires xa < xb
    ensures SegYAtX(xa, ya, xb, yb, xa) == ya
  {
  }

  lemma ReachAtLeft(p: Piece)
    ensures p.left <= p.right ==> Reach(p, p.left) == 0
  {
  }

  lemma AllLeft(cover: seq<int>, area: seq<int>, p: Piece, down: bool)
    requires |cover| == |area| > 0 && p.left <= p.right <= 0
    ensures CoverAdded(cover, cover[0 := cover[0] + Signed(down, p.height)], p, down)
            && AreaAdded(area, area, p, down, |area|)
  {
    hide Prefix, Rise;
    CoverWhole(cover, p, down, 0);
  }

  lemma AllRight(cover: seq<int>, area: seq<int>, p: Piece, down: bool)
    requires |cover| == |area| && p.left <= p.right && 256 * |cover| <= p.left
    ensures CoverAdded(cover, cover, p, down) && AreaAdded(area, area, p, down, |area|)
  {
    hide Prefix, Rise;
  }

  lemma Upright(cover: seq<int>, area: seq<int>, p: Piece, down: bool)
    requires |cover| == |area| && 0 < p.left == p.right < 256 * |cover|
    ensures var c := p.left / 256;
            && 0 <= c < |cover|
            && CoverAdded(cover, cover[c := cover[c] + Signed(down, p.height)], p, down)
            && AreaAdded(area, area[c := area[c] + Signed(down, Product(p.height, p.left % 256 * 2))], p, down, |area|)
  {
    hide Prefix, Product;
    var c := p.left / 256;
    assert p.left == 256 * c + p.left % 256;
    CoverWhole(cover, p, down, c);
  }

  lemma NoAreaBefore(area: seq<int>, p: Piece, down: bool, n: int)
    requires p.left < p.right && n == Max(p.left, 0) / 256
    ensures AreaAdded(area, area, p, down, n)
  {
    hide Reach, Product;
  }

  lemma NoAreaAfter(was: seq<int>, now: seq<int>, p: Piece, down: bool, n: int)
    requires AreaAdded(was, now, p, down, n) && p.left < p.right && (p.right <= 256 * n || |was| <= n)
    ensures AreaAdded(was, now, p, down, |now|)
  {
    hide Reach, Product;
  }

  lemma AreaStep(was: seq<int>, now: seq<int>, p: Piece, down: bool, c: nat, xl: int, xr: int)
    requires AreaAdded(was, now, p, down, c) && c < |now| && p.left < p.right
    requires xl == Max(p.left, 256 * c) && xr == Min(p.right, 256 * c + 256) && xl < xr
    ensures AreaAdded(was,
            now[c := now[c] + Signed(down, Product(Reach(p, xr) - Reach(p, xl), (xl - 256 * c) + (xr - 256 * c)))], p,
              down, c + 1)
  {
    hide Reach, Product;
  }

  // ----- one edge in a band -----

  function FloorDiv256(v: int): (q: int)
    ensures q == v / 256
  {
    if v >= 0 then v / 256 else -((-v + 255) / 256)
  }

  /** The row's cells hold the sums over the first `n` edges. */
  ghost predicate CellsOk(edges: seq<Edge>, n: nat, cv: seq<int>, ar: seq<int>, left: int, row: int)
    requires n <= |edges| && EdgesOk(edges)
  {
    |cv| == |ar| && forall c | 0 <= c < |cv| :: CellOk(edges, n, cv, ar, left, row, c)
  }

  ghost predicate CellOk(edges: seq<Edge>, n: nat, cv: seq<int>, ar: seq<int>, left: int, row: int, c: nat)
    requires n <= |edges| && EdgesOk(edges) && c < |cv| == |ar|
  {
    Prefix(cv, c + 1) == Winding(edges, n, left + c, row) && ar[c] == AreaSum(edges, n, left + c, row)
  }

  /** The sums of at most 2^13 edges fit the cells, with room for one more edge while there is one. */
  lemma CellsFit(edges: seq<Edge>, n: nat, cv: seq<int>, ar: seq<int>, left: int, row: int)
    requires n <= |edges| <= MAX_EDGES && EdgesOk(edges) && CellsOk(edges, n, cv, ar, left, row)
    ensures RowFits(cv) && RowFits(ar) && (n < |edges| ==> Room(cv, ar))
  {
    hide Winding, AreaSum, Prefix;
    forall c | 0 <= c < |cv| ensures Fits(cv[c]) && Fits(ar[c]) && (n < |edges| ==> RoomAt(cv[c], ar[c])) {
      SumsFit(edges, n, left + c, row);
      CellOfPrefix(cv, c);
      assert CellOk(edges, n, cv, ar, left, row, c);
      if c > 0 {
        assert CellOk(edges, n, cv, ar, left, row, c - 1);
      }
    }
  }

  lemma NotCrossing(edges: seq<Edge>, n: nat, cv: seq<int>, ar: seq<int>, left: int, row: int)
    requires n < |edges| && EdgesOk(edges) && CellsOk(edges, n, cv, ar, left, row) && !Crosses(edges[n], row)
    ensures CellsOk(edges, n + 1, cv, ar, left, row)
  {
    hide Prefix, Winding, AreaSum;
    var m := n + 1;
    forall c | 0 <= c < |cv| ensures CellOk(edges, m, cv, ar, left, row, c) {
      assert CellOk(edges, n, cv, ar, left, row, c);
      OneMore(edges, n, left + c, row);
    }
  }

  lemma Crossing(edges: seq<Edge>, n: nat, cv: seq<int>, ar: seq<int>, cv': seq<int>, ar': seq<int>, left: int,
      row: int, p: Piece)
    requires n < |edges| && EdgesOk(edges) && CellsOk(edges, n, cv, ar, left, row) && Crosses(edges[n], row)
    requires var q := EdgePiece(edges[n], row); p == Piece(q.left - 256 * left, q.right - 256 * left, q.height)
    requires CoverAdded(cv, cv', p, edges[n].down) && AreaAdded(ar, ar', p, edges[n].down, |ar|)
    ensures CellsOk(edges, n + 1, cv', ar', left, row)
  {
    hide Prefix, Reach, AreaIn, EdgePiece, Winding, AreaSum;
    var e := edges[n];
    var q := EdgePiece(e, row);
    var m := n + 1;
    forall c | 0 <= c < |cv'| ensures CellOk(edges, m, cv', ar', left, row, c) {
      assert CellOk(edges, n, cv, ar, left, row, c);
      ReachShift(q, 256 * (left + c) + 256, 256 * left);
      ReachShift(q, 256 * (left + c), 256 * left);
      OneMore(edges, n, left + c, row);
    }
  }

  lemma OneMore(edges: seq<Edge>, n: nat, x: int, row: int)
    requires n < |edges| && EdgesOk(edges)
    ensures Winding(edges, n + 1, x, row) == Winding(edges, n, x, row) + EdgeReach(edges[n], row, 256 * x + 256)
    ensures AreaSum(edges, n + 1, x, row) == AreaSum(edges, n, x, row) + EdgeArea(edges[n], row, 256 * x)
  {
  }

  lemma Shifted(e: Edge, row: int, ya: int, yb: int, left: int)
    requires e.y0 < e.y1 && ya == Max(e.y0, 256 * row) && yb == Min(e.y1, 256 * row + 256)
    ensures var q := EdgePiece(e, row);
            PieceOf(EdgeXAt(e, ya) - 256 * left, ya - 256 * row, EdgeXAt(e, yb) - 256 * left, yb - 256 * row)
            == Piece(q.left - 256 * left, q.right - 256 * left, q.height)
  {
    hide EdgeXAt;
  }

  /** Adds an edge to every row of the band it crosses. */
  method AddEdge(cover: array2<int>, area: array2<int>, edges: seq<Edge>, i: nat, left: int, top: int)
    requires i < |edges| <= MAX_EDGES && EdgesOk(edges)
    requires cover != area && cover.Length0 == area.Length0 && cover.Length1 == area.Length1 > 0
    requires forall r | 0 <= r < cover.Length0 :: CellsOk(edges, i, Row(cover, r), Row(area, r), left, top + r)
    modifies cover, area
    ensures forall r | 0 <= r < cover.Length0 :: CellsOk(edges, i + 1, Row(cover, r), Row(area, r), left, top + r)
    ensures forall r | 0 <= r < cover.Length0 :: RowFits(Row(cover, r)) && RowFits(Row(area, r))
  {
    EdgeInBand(cover, area, edges, i, left, top);
    hide Row, CellsOk, RowFits, Room;
    forall r | 0 <= r < cover.Length0 ensures RowFits(Row(cover, r)) && RowFits(Row(area, r)) {
      CellsFit(edges, i + 1, Row(cover, r), Row(area, r), left, top + r);
    }
  }

  /** Cuts the edge at the rows. */
  method EdgeInBand(cover: array2<int>, area: array2<int>, edges: seq<Edge>, i: nat, left: int, top: int)
    requires i < |edges| <= MAX_EDGES && EdgesOk(edges)
    requires cover != area && cover.Length0 == area.Length0 && cover.Length1 == area.Length1 > 0
    requires forall r | 0 <= r < cover.Length0 :: CellsOk(edges, i, Row(cover, r), Row(area, r), left, top + r)
    modifies cover, area
    ensures forall r | 0 <= r < cover.Length0 :: CellsOk(edges, i + 1, Row(cover, r), Row(area, r), left, top + r)
  {
    hide Row, CellsOk, CoverAdded, AreaAdded, EdgePiece, EdgeXAt, Room;
    var e := edges[i];
    var rows := cover.Length0;
    var bandTop, bandBot := 256 * top, 256 * (top + rows);
    if e.y1 <= bandTop || e.y0 >= bandBot {
      forall r | 0 <= r < rows ensures CellsOk(edges, i + 1, Row(cover, r), Row(area, r), left, top + r) {
        NotCrossing(edges, i, Row(cover, r), Row(area, r), left, top + r);
      }
      return;
    }
    var ya0, yb1 := Max(e.y0, bandTop), Min(e.y1, bandBot);
    var row := FloorDiv256(ya0);
    forall r | 0 <= r < rows && top + r < row
      ensures CellsOk(edges, i + 1, Row(cover, r), Row(area, r), left, top + r) {
      NotCrossing(edges, i, Row(cover, r), Row(area, r), left, top + r);
    }
    while 256 * row < yb1
      invariant top <= row && (256 * row < yb1 || 256 * row >= e.y1 || row >= top + rows)
      invariant 256 * row + 256 > ya0
      invariant forall r | 0 <= r < rows ::
                CellsOk(edges, if top + r < row then i + 1 else i, Row(cover, r), Row(area, r), left, top + r)
      decreases yb1 - 256 * row
    {
      var rowTop := 256 * row;
      var ya, yb := Max(ya0, rowTop), Min(yb1, rowTop + 256);
      var r := row - top;
      Shifted(e, row, ya, yb, left);
      ghost var cv, ar := Row(cover, r), Row(area, r);
      CellsFit(edges, i, cv, ar, left, row);
      AddRowPiece(cover, area, r, EdgeXAt(e, ya) - 256 * left, ya - rowTop, EdgeXAt(e, yb) - 256 * left, yb - rowTop,
        e.down);
      Crossing(edges, i, cv, ar, Row(cover, r), Row(area, r), left, row,
        PieceOf(EdgeXAt(e, ya) - 256 * left, ya - rowTop, EdgeXAt(e, yb) - 256 * left, yb - rowTop));
      row := row + 1;
    }
    forall r | 0 <= r < rows && top + r >= row
      ensures CellsOk(edges, i + 1, Row(cover, r), Row(area, r), left, top + r) {
      NotCrossing(edges, i, Row(cover, r), Row(area, r), left, top + r);
    }
  }

  // ----- a band -----

  /** One row of coverage bytes. */
  datatype Span = Span(y: int, x: int, bytes: seq<int>)

  ghost predicate SpanOk(s: Span, edges: seq<Edge>, rule: Rule, y: int, x: int, width: int)
    requires EdgesOk(edges)
  {
    && s.y == y && s.x == x && |s.bytes| == width
    && forall c | 0 <= c < |s.bytes| :: s.bytes[c] == Coverage(edges, rule, x + c, y)
  }

  /** Sweeps a row of cells from the left. */
  method SweepRow(cover: array2<int>, area: array2<int>, r: nat, edges: seq<Edge>, rule: Rule, left: int, y: int)
      returns (s: Span)
    requires EdgesOk(edges) && cover.Length0 == area.Length0 && cover.Length1 == area.Length1 && r < cover.Length0
    requires CellsOk(edges, |edges|, Row(cover, r), Row(area, r), left, y)
    ensures SpanOk(s, edges, rule, y, left, cover.Length1)
  {
    hide Winding, AreaSum, Tone;
    var bytes := [];
    var acc := 0;
    var x := 0;
    ghost var cv, ar := Row(cover, r), Row(area, r);
    while x < cover.Length1
      invariant 0 <= x <= cover.Length1 && |bytes| == x && acc == Prefix(cv, x)
      invariant forall c | 0 <= c < x :: bytes[c] == Coverage(edges, rule, left + c, y)
    {
      assert CellOk(edges, |edges|, cv, ar, left, y, x);
      acc := acc + cover[r, x];
      assert acc == Prefix(cv, x + 1);
      bytes := bytes + [Tone(rule, acc * 512 - area[r, x])];
      x := x + 1;
    }
    s := Span(y, left, bytes);
  }

  /** A fresh band of zeroed cells, all edges, and the sweep. */
  method FillBand(edges: seq<Edge>, rule: Rule, left: int, width: nat, top: int, rows: nat) returns (out: seq<Span>)
    requires EdgesOk(edges) && |edges| <= MAX_EDGES && width > 0
    ensures |out| == rows && forall k | 0 <= k < rows :: SpanOk(out[k], edges, rule, top + k, left, width)
  {
    hide CellsOk, Row, SpanOk, RowFits;
    var cover := new int[rows, width]((_, _) => 0);
    var area := new int[rows, width]((_, _) => 0);
    forall r | 0 <= r < rows ensures CellsOk(edges, 0, Row(cover, r), Row(area, r), left, top + r) {
      ZeroCells(edges, Row(cover, r), Row(area, r), left, top + r);
    }
    var i := 0;
    while i < |edges|
      invariant 0 <= i <= |edges|
      invariant forall r | 0 <= r < rows :: CellsOk(edges, i, Row(cover, r), Row(area, r), left, top + r)
      invariant i > 0 ==> forall r | 0 <= r < rows :: RowFits(Row(cover, r)) && RowFits(Row(area, r))
    {
      AddEdge(cover, area, edges, i, left, top);
      i := i + 1;
    }
    out := [];
    var r := 0;
    while r < rows
      invariant 0 <= r <= rows && |out| == r
      invariant forall k | 0 <= k < rows :: CellsOk(edges, |edges|, Row(cover, k), Row(area, k), left, top + k)
      invariant forall k | 0 <= k < r :: SpanOk(out[k], edges, rule, top + k, left, width)
    {
      var s := SweepRow(cover, area, r, edges, rule, left, top + r);
      out := out + [s];
      r := r + 1;
    }
  }

  lemma ZeroCells(edges: seq<Edge>, cv: seq<int>, ar: seq<int>, left: int, row: int)
    requires EdgesOk(edges) && |cv| == |ar| && forall c | 0 <= c < |cv| :: cv[c] == 0 == ar[c]
    ensures CellsOk(edges, 0, cv, ar, left, row)
  {
    forall c | 0 <= c < |cv| ensures CellOk(edges, 0, cv, ar, left, row, c) {
      ZeroPrefix(cv, c + 1);
    }
  }

  lemma {:induction false} ZeroPrefix(s: seq<int>, n: nat)
    requires n <= |s| && forall c | 0 <= c < |s| :: s[c] == 0
    ensures Prefix(s, n) == 0
  {
    if n > 0 {
      ZeroPrefix(s, n - 1);
    }
  }

  // ----- the fill -----

  datatype Rect = Rect(x0: int, y0: int, x1: int, y1: int)

  /** The smallest box of whole coordinates around the first `n` edges. */
  ghost function Bounds(edges: seq<Edge>, n: nat): Rect
    requires 0 < n <= |edges|
  {
    var e := edges[n - 1];
    var b := Rect(Min(e.x0, e.x1), e.y0, Max(e.x0, e.x1), e.y1);
    if n == 1 then b
    else
      var c := Bounds(edges, n - 1);
      Rect(Min(b.x0, c.x0), Min(b.y0, c.y0), Max(b.x1, c.x1), Max(b.y1, c.y1))
  }

  /** The pixels that can be covered, inside the clip. */
  ghost function Visible(edges: seq<Edge>, clip: Rect): Rect
    requires edges != []
  {
    var b := Bounds(edges, |edges|);
    Rect(Max(b.x0 / 256, clip.x0), Max(b.y0 / 256, clip.y0), Min(-(-b.x1 / 256), clip.x1), Min(-(-b.y1 / 256), clip.y1))
  }

  /** One span for every visible row, holding each pixel's coverage. */
  ghost predicate Filled(out: seq<Span>, edges: seq<Edge>, rule: Rule, clip: Rect)
    requires EdgesOk(edges)
  {
    if edges == [] || clip.x0 >= clip.x1 || clip.y0 >= clip.y1 then out == []
    else
      var v := Visible(edges, clip);
      if v.x0 >= v.x1 || v.y0 >= v.y1 then out == []
      else |out| == v.y1 - v.y0 && forall k | 0 <= k < |out| :: SpanOk(out[k], edges, rule, v.y0 + k, v.x0, v.x1 - v.x0)
  }

  method FindBounds(edges: seq<Edge>) returns (b: Rect)
    requires edges != [] && EdgesOk(edges)
    ensures b == Bounds(edges, |edges|)
  {
    var e := edges[0];
    b := Rect(e.x0, e.y0, e.x0, e.y1);
    var i := 0;
    while i < |edges|
      invariant 0 <= i <= |edges| && (i > 0 ==> b == Bounds(edges, i)) && (i == 0 ==> b == Rect(e.x0, e.y0, e.x0, e.y1))
    {
      var f := edges[i];
      var lo, hi := Min(f.x0, f.x1), Max(f.x0, f.x1);
      b := Rect(Min(lo, b.x0), Min(f.y0, b.y0), Max(hi, b.x1), Max(f.y1, b.y1));
      i := i + 1;
    }
  }

  /** Fills the edges' shape inside the clip. */
  method Fill(edges: seq<Edge>, clip: Rect, rule: Rule) returns (status: Status, out: seq<Span>)
    requires EdgesOk(edges)
    ensures status == ErrUnsupported <==> |edges| > MAX_EDGES && clip.x0 < clip.x1 && clip.y0 < clip.y1
    ensures status == Ok || status == ErrUnsupported
    ensures status == Ok ==> Filled(out, edges, rule, clip)
  {
    hide Bounds, SpanOk;
    out := [];
    if edges == [] || clip.x0 >= clip.x1 || clip.y0 >= clip.y1 {
      return Ok, out;
    }
    if |edges| > MAX_EDGES {
      return ErrUnsupported, out;
    }
    var b := FindBounds(edges);
    var x0, x1 := Max(FloorDiv256(b.x0), clip.x0), Min(-FloorDiv256(-b.x1), clip.x1);
    var y0, y1 := Max(FloorDiv256(b.y0), clip.y0), Min(-FloorDiv256(-b.y1), clip.y1);
    if x0 >= x1 || y0 >= y1 {
      return Ok, out;
    }
    var width := x1 - x0;
    var bandRows := Max(Min(BAND_MAX_CELLS / width, BAND_ROWS), 1);
    var y := y0;
    while y < y1
      invariant y0 <= y <= y1 && |out| == y - y0
      invariant forall k | 0 <= k < |out| :: SpanOk(out[k], edges, rule, y0 + k, x0, width)
    {
      var rows := Min(y1 - y, bandRows);
      var band := FillBand(edges, rule, x0, width, y, rows);
      forall k | 0 <= k < |band| ensures SpanOk(band[k], edges, rule, y0 + |out| + k, x0, width) {
        assert SpanOk(band[k], edges, rule, y + k, x0, width);
      }
      out := Joined(out, band, edges, rule, y0, x0, width);
      y := y + rows;
    }
    status := Ok;
  }

  method Joined(out: seq<Span>, band: seq<Span>, ghost edges: seq<Edge>, ghost rule: Rule, ghost y0: int, ghost x0: int,
      ghost width: int) returns (r: seq<Span>)
    requires EdgesOk(edges)
    requires forall k | 0 <= k < |out| :: SpanOk(out[k], edges, rule, y0 + k, x0, width)
    requires forall k | 0 <= k < |band| :: SpanOk(band[k], edges, rule, y0 + |out| + k, x0, width)
    ensures r == out + band && forall k | 0 <= k < |r| :: SpanOk(r[k], edges, rule, y0 + k, x0, width)
  {
    hide SpanOk;
    r := out + band;
    forall k | 0 <= k < |r| ensures SpanOk(r[k], edges, rule, y0 + k, x0, width) {
      if k >= |out| {
        assert SpanOk(band[k - |out|], edges, rule, y0 + |out| + (k - |out|), x0, width);
      }
    }
  }

  /** The byte a list of spans gives a pixel, -1 if it gives none. */
  ghost function ByteAt(out: seq<Span>, x: int, y: int): int {
    if out == [] then -1
    else
      var s := out[|out| - 1];
      if s.y == y && s.x <= x < s.x + |s.bytes| then s.bytes[x - s.x] else ByteAt(out[..|out| - 1], x, y)
  }

  lemma {:induction false} ByteInSpans(out: seq<Span>, edges: seq<Edge>, rule: Rule, y0: int, x0: int, width: nat,
      x: int, y: int)
    requires EdgesOk(edges) && forall k | 0 <= k < |out| :: SpanOk(out[k], edges, rule, y0 + k, x0, width)
    ensures ByteAt(out, x, y) == if x0 <= x < x0 + width
            && y0 <= y < y0 + |out| then Coverage(edges, rule, x, y) else -1
  {
    hide Coverage;
    if out != [] {
      var n := |out| - 1;
      assert SpanOk(out[n], edges, rule, y0 + n, x0, width);
      ByteInSpans(out[..n], edges, rule, y0, x0, width, x, y);
    }
  }

  /** Under a smaller clip each of its pixels gets the very same byte. */
  lemma ClipIndependent(edges: seq<Edge>, rule: Rule, small: Rect, large: Rect, a: seq<Span>, b: seq<Span>, x: int,
      y: int)
    requires EdgesOk(edges) && Filled(a, edges, rule, small) && Filled(b, edges, rule, large)
    requires large.x0 <= small.x0 && small.x1 <= large.x1 && large.y0 <= small.y0 && small.y1 <= large.y1
    requires small.x0 <= x < small.x1 && small.y0 <= y < small.y1
    ensures ByteAt(a, x, y) == ByteAt(b, x, y)
  {
    hide Coverage, SpanOk, ByteAt, Bounds;
    if edges == [] {
    } else {
      var v, w := Visible(edges, small), Visible(edges, large);
      NoSpans(x, y);
      if v.x0 < v.x1 && v.y0 < v.y1 {
        ByteInSpans(a, edges, rule, v.y0, v.x0, v.x1 - v.x0, x, y);
      }
      if w.x0 < w.x1 && w.y0 < w.y1 {
        ByteInSpans(b, edges, rule, w.y0, w.x0, w.x1 - w.x0, x, y);
      }
    }
  }

  lemma NoSpans(x: int, y: int)
    ensures ByteAt([], x, y) == -1
  {
  }
}
