/** Drawing a GIF frame's indices: plain or interlaced rows, clipped, with one transparent index. */
module GifPaint {
  import opened Sequences

  const OPAQUE_BLACK := 0xFF000000
  const PASS_START := [0, 4, 2, 1]
  const PASS_STEP := [8, 8, 4, 2]

  datatype Pixel = Pixel(row: nat, col: nat)

  // ----- the order of the pixels -----

  /** The pass that draws a row. */
  function PassOf(interlace: bool, row: nat): nat {
    if !interlace || row % 8 == 0 then 0 else if row % 8 == 4 then 1 else if row % 8 == 2 || row % 8 == 6 then 2 else 3
  }

  /** Each pass draws what the ones before left out of every eighth, fourth, second and of every row. */
  lemma PassRows(row: nat)
    ensures PassOf(true, row) <= 0 <==> row % 8 == 0
    ensures PassOf(true, row) <= 1 <==> row % 4 == 0
    ensures PassOf(true, row) <= 2 <==> row % 2 == 0
    ensures PassOf(true, row) <= 3 && PassOf(false, row) == 0
  {
    Eighths(row / 8, row % 8);
  }

  lemma Eighths(a: nat, v: nat)
    requires v < 8
    ensures (8 * a + v) % 4 == v % 4 && (8 * a + v) % 2 == v % 2
  {
    Fourths(2 * a + v / 4, v % 4);
    Halves(4 * a + v / 2, v % 2);
  }

  lemma Fourths(a: nat, v: nat)
    requires v < 4
    ensures (4 * a + v) % 4 == v
  {
  }

  lemma Halves(a: nat, v: nat)
    requires v < 2
    ensures (2 * a + v) % 2 == v
  {
  }

  /** File order: by pass, then row, then column. */
  predicate Before(interlace: bool, p: Pixel, q: Pixel) {
    var a, b := PassOf(interlace, p.row), PassOf(interlace, q.row);
    a < b || (a == b && (p.row < q.row || (p.row == q.row && p.col < q.col)))
  }

  function SkipEmpty(row: nat, pass: nat, fh: nat): (r: (nat, nat))
    requires pass <= 3
    ensures r.1 <= 3
    decreases 3 - pass
  {
    if row >= fh && pass < 3 then SkipEmpty(PASS_START[pass + 1], pass + 1, fh) else (row, pass)
  }

  /** The row after `row`; interlaced passes with no rows are skipped. */
  function NextRow(interlace: bool, row: nat, pass: nat, fh: nat): (r: (nat, nat))
    requires pass <= 3
    ensures r.1 <= 3
  {
    if !interlace then (row + 1, pass) else SkipEmpty(row + PASS_STEP[pass], pass, fh)
  }

  /** Cursor rows are rows of the current pass, or past the end of the last one. */
  ghost predicate AtRow(interlace: bool, row: nat, pass: nat, fh: nat) {
    pass <= 3 && if row < fh then pass == PassOf(interlace, row) else fh == 0 || pass == if interlace then 3 else 0
  }

  /** The row comes before the cursor. */
  ghost predicate RowBefore(interlace: bool, r: nat, row: nat, pass: nat) {
    PassOf(interlace, r) < pass || (PassOf(interlace, r) == pass && r < row)
  }

  lemma FirstOfPass(pass: nat, r: nat)
    requires pass <= 3
    ensures PassOf(true, PASS_START[pass]) == pass
    ensures PassOf(true, r) == pass ==> r >= PASS_START[pass]
  {
  }

  lemma {:induction false} SkipOrder(row: nat, pass: nat, fh: nat, r: nat)
    requires PassOf(true, row) == pass && r < fh
    ensures var n := SkipEmpty(row, pass, fh);
            AtRow(true, n.0, n.1, fh) && (RowBefore(true, r, n.0, n.1) <==> RowBefore(true, r, row, pass))
    decreases 3 - pass
  {
    if row >= fh && pass < 3 {
      FirstOfPass(pass + 1, r);
      SkipOrder(PASS_START[pass + 1], pass + 1, fh, r);
    }
  }

  lemma StepInPass(row: nat, pass: nat, r: nat)
    requires PassOf(true, row) == pass
    ensures PassOf(true, row + PASS_STEP[pass]) == pass
    ensures PassOf(true, r) == pass ==> (r < row + PASS_STEP[pass] <==> r <= row)
  {
    var a, v, b, w := row / 8, row % 8, r / 8, r % 8;
    Residue(a, v + PASS_STEP[pass]);
    assert row == 8 * a + v && r == 8 * b + w;
  }

  lemma Residue(a: nat, u: nat)
    requires u < 16
    ensures (8 * a + u) % 8 == if u < 8 then u else u - 8
  {
    assert u >= 8 ==> 8 * a + u == 8 * (a + 1) + (u - 8);
  }

  /** Between a row and the next nothing is left out: the rows before the next one are this one and those before it. */
  lemma NextRowOrder(interlace: bool, row: nat, pass: nat, fh: nat, r: nat)
    requires row < fh && AtRow(interlace, row, pass, fh) && r < fh
    ensures var n := NextRow(interlace, row, pass, fh);
            AtRow(interlace, n.0, n.1, fh)
              && (RowBefore(interlace, r, n.0, n.1) <==> RowBefore(interlace, r, row, pass) || r == row)
  {
    if interlace {
      StepInPass(row, pass, r);
      SkipOrder(row + PASS_STEP[pass], pass, fh, r);
    }
  }

  // ----- counting pixels -----

  function Area(h: nat, w: nat): nat {
    if h == 0 then 0 else Area(h - 1, w) + w
  }

  lemma {:induction false} AreaIsProduct(h: nat, w: nat)
    ensures Area(h, w) == h * w
  {
    if h > 0 {
      AreaIsProduct(h - 1, w);
      assert h * w == (h - 1) * w + w;
    }
  }

  ghost function RowPixels(row: nat, w: nat): set<Pixel> {
    if w == 0 then {} else RowPixels(row, w - 1) + {Pixel(row, w - 1)}
  }

  lemma {:induction false} RowPixelsAre(row: nat, w: nat)
    ensures |RowPixels(row, w)| == w && forall p :: p in RowPixels(row, w) <==> p.row == row && p.col < w
  {
    if w > 0 {
      RowPixelsAre(row, w - 1);
    }
  }

  ghost function FramePixels(h: nat, w: nat): set<Pixel> {
    if h == 0 then {} else FramePixels(h - 1, w) + RowPixels(h - 1, w)
  }

  lemma FramePixelsAre(h: nat, w: nat)
    ensures |FramePixels(h, w)| == Area(h, w) && forall p :: p in FramePixels(h, w) <==> p.row < h && p.col < w
  {
    hide FramePixels;
    FrameFrom(h, w);
  }

  /** The pixels of rows `from` up to `to`. */
  ghost predicate RowsOf(s: set<Pixel>, from: nat, to: nat, w: nat) {
    forall p :: p in s <==> from <= p.row < to && p.col < w
  }

  lemma {:induction false} FrameFrom(h: nat, w: nat)
    ensures |FramePixels(h, w)| == Area(h, w) && RowsOf(FramePixels(h, w), 0, h, w)
  {
    hide *;
    FrameRows(h, w);
    if h == 0 {
      NoRows(w);
    } else {
      FrameFrom(h - 1, w);
      OneRow(h - 1, w);
      RowBelow(FramePixels(h - 1, w), RowPixels(h - 1, w), h - 1, w);
    }
  }

  lemma FrameRows(h: nat, w: nat)
    ensures h == 0 ==> FramePixels(h, w) == {} && Area(h, w) == 0
    ensures h > 0 ==>
              FramePixels(h, w) == FramePixels(h - 1, w) + RowPixels(h - 1, w) && Area(h, w) == Area(h - 1, w) + w
  {
    hide RowPixels;
  }

  lemma NoRows(w: nat)
    ensures RowsOf({}, 0, 0, w)
  {
  }

  lemma OneRow(row: nat, w: nat)
    ensures |RowPixels(row, w)| == w && RowsOf(RowPixels(row, w), row, row + 1, w)
  {
    hide RowPixels;
    RowPixelsAre(row, w);
  }

  lemma RowBelow(above: set<Pixel>, last: set<Pixel>, h: nat, w: nat)
    requires RowsOf(above, 0, h, w) && RowsOf(last, h, h + 1, w)
    ensures |above + last| == |above| + |last| && RowsOf(above + last, 0, h + 1, w)
  {
    assert above !! last;
  }

  // ----- the painter -----

  /** A frame: its rectangle, colours, and how rows are ordered. */
  datatype Frame = Frame(fx: nat, fy: nat, fw: nat, fh: nat, interlace: bool, pal: seq<nat>, transparent: int)

  /** The colour of an index; out of the palette it is opaque black. */
  function ColourOf(f: Frame, idx: nat): nat {
    if idx < |f.pal| then f.pal[idx] else OPAQUE_BLACK
  }

  /** The canvas pixel at (y, x) after the listed indices went to the listed places, starting from `was`. */
  ghost function Painted(f: Frame, places: seq<Pixel>, indices: seq<nat>, was: nat, y: nat, x: nat): nat
    requires |places| == |indices|
  {
    if places == [] then was
    else
      var n := |places| - 1;
      if y == f.fy + places[n].row && x == f.fx + places[n].col
        && indices[n] != f.transparent then ColourOf(f, indices[n])
      else Painted(f, places[..n], indices[..n], was, y, x)
  }

  /** The places are exactly the frame's pixels before the cursor, in order, each once. */
  ghost predicate Visited(f: Frame, places: seq<Pixel>, row: nat, pass: nat, col: nat) {
    && (forall i, j | 0 <= i < j < |places| :: Before(f.interlace, places[i], places[j]))
    && forall p :: p in places <==>
       p.row < f.fh && p.col < f.fw && (RowBefore(f.interlace, p.row, row, pass) || (p.row == row && p.col < col))
  }

  class Painter {
    const f: Frame
    const canvas: array2<nat>
    const clipW: nat
    const clipH: nat
    var row: nat
    var col: nat
    var pass: nat
    var left: nat
    ghost var places: seq<Pixel>
    ghost var emitted: seq<nat>
    ghost const was: seq<seq<nat>>

    ghost predicate Valid()
      reads this, canvas
    {
      && |places| == |emitted| && |places| + left == Area(f.fh, f.fw)
      && pass <= 3 && AtRow(f.interlace, row, pass, f.fh) && (f.fw > 0 ==> col < f.fw)
      && Visited(f, places, row, pass, col)
      && clipW == Clip(f.fx, f.fw, canvas.Length1) && clipH == Clip(f.fy, f.fh, canvas.Length0)
      && |was| == canvas.Length0 && (forall y | 0 <= y < |was| :: |was[y]| == canvas.Length1)
      && forall y, x | 0 <= y < canvas.Length0 && 0 <= x < canvas.Length1 ::
         canvas[y, x] == Painted(f, places, emitted, was[y][x], y, x)
    }

    constructor (f: Frame, canvas: array2<nat>)
      ensures Valid() && this.f == f && this.canvas == canvas && left == Area(f.fh, f.fw) && emitted == []
    {
      this.f, this.canvas := f, canvas;
      clipW := Clip(f.fx, f.fw, canvas.Length1);
      clipH := Clip(f.fy, f.fh, canvas.Length0);
      row, col, pass := 0, 0, 0;
      left := f.fw * f.fh;
      places, emitted := [], [];
      was := seq(canvas.Length0, y requires 0 <= y < canvas.Length0 reads canvas =>
                   seq(canvas.Length1, x requires 0 <= x < canvas.Length1 reads canvas => canvas[y, x]));
      new;
      AreaIsProduct(f.fh, f.fw);
      Swap(f.fw, f.fh);
    }

    /** Draws one index at the cursor and moves on. */
    method Put(idx: nat)
      requires Valid() && left > 0
      modifies this`row, this`col, this`pass, this`left, this`places, this`emitted, canvas
      ensures Valid() && left == old(left) - 1 && emitted == old(emitted) + [idx]
      ensures places == old(places) + [Pixel(old(row), old(col))]
    {
      hide Visited, Painted, NextRow, AtRow, RowBefore;
      CursorInside(f, places, row, pass, col);
      if row < clipH && col < clipW && idx != f.transparent {
        canvas[f.fy + row, f.fx + col] := ColourOf(f, idx);
      }
      ghost var here := Pixel(row, col);
      ghost var places0, emitted0 := places, emitted;
      places := places + [here];
      emitted := emitted + [idx];
      forall y, x | 0 <= y < canvas.Length0 && 0 <= x < canvas.Length1
        ensures canvas[y, x] == Painted(f, places, emitted, was[y][x], y, x) {
        PaintedOne(f, places0, emitted0, here, idx, was[y][x], y, x);
      }
      left := left - 1;
      Advance(f, places0, row, pass, col);
      col := col + 1;
      if col == f.fw {
        col := 0;
        var n := NextRow(f.interlace, row, pass, f.fh);
        row, pass := n.0, n.1;
      }
    }
  }

  lemma Swap(a: nat, b: nat)
    ensures a * b == b * a
  {
  }

  function Clip(at: nat, size: nat, limit: nat): nat {
    if at >= limit then 0 else if size < limit - at then size else limit - at
  }

  lemma PaintedOne(f: Frame, places: seq<Pixel>, indices: seq<nat>, p: Pixel, idx: nat, was: nat, y: nat, x: nat)
    requires |places| == |indices|
    ensures Painted(f, places + [p], indices + [idx], was, y, x)
         == if y == f.fy + p.row && x == f.fx + p.col
           && idx != f.transparent then ColourOf(f, idx) else Painted(f, places, indices, was, y, x)
  {
    assert (places + [p])[..|places|] == places && (indices + [idx])[..|places|] == indices;
  }

  /** While pixels are left the cursor is on one. */
  lemma CursorInside(f: Frame, places: seq<Pixel>, row: nat, pass: nat, col: nat)
    requires AtRow(f.interlace, row, pass, f.fh) && (f.fw > 0 ==> col < f.fw) && Visited(f, places, row, pass, col)
    requires |places| < Area(f.fh, f.fw)
    ensures row < f.fh && col < f.fw
  {
    hide AtRow, RowBefore, Before;
    FramePixelsAre(f.fh, f.fw);
    OrderedDistinct(f, places);
    if row >= f.fh {
      forall p: Pixel | p.row < f.fh && p.col < f.fw ensures p in places {
        PastTheEnd(f.interlace, row, pass, f.fh, p.row);
      }
      DistinctCount(places, FramePixels(f.fh, f.fw));
    }
    if f.fw == 0 {
      DistinctCount(places, FramePixels(f.fh, f.fw));
    }
  }

  lemma OrderedDistinct(f: Frame, places: seq<Pixel>)
    requires forall i, j | 0 <= i < j < |places| :: Before(f.interlace, places[i], places[j])
    ensures Distinct(places)
  {
  }

  lemma PastTheEnd(interlace: bool, row: nat, pass: nat, fh: nat, r: nat)
    requires AtRow(interlace, row, pass, fh) && row >= fh && r < fh
    ensures RowBefore(interlace, r, row, pass)
  {
  }

  lemma Advance(f: Frame, places: seq<Pixel>, row: nat, pass: nat, col: nat)
    requires Visited(f, places, row, pass, col) && AtRow(f.interlace, row, pass, f.fh) && row < f.fh && col < f.fw
             && pass <= 3
    ensures col + 1 < f.fw ==> Visited(f, places + [Pixel(row, col)], row, pass, col + 1)
    ensures col + 1 == f.fw ==> var n := NextRow(f.interlace, row, pass, f.fh);
                                AtRow(f.interlace, n.0, n.1, f.fh)
                                  && Visited(f, places + [Pixel(row, col)], n.0, n.1, 0)
  {
    hide NextRow, AtRow, Before;
    var here := Pixel(row, col);
    forall i | 0 <= i < |places| ensures Before(f.interlace, places[i], here) {
      assert places[i] in places;
      ComesBefore(f, places[i], row, pass, col);
    }
    var places' := places + [here];
    assert forall p :: p in places' <==> p in places || p == here;
    if col + 1 == f.fw {
      var n := NextRow(f.interlace, row, pass, f.fh);
      NextRowOrder(f.interlace, row, pass, f.fh, row);
      forall p ensures p in places' <==>
        p.row < f.fh && p.col < f.fw && (RowBefore(f.interlace, p.row, n.0, n.1) || (p.row == n.0 && p.col < 0)) {
        if p.row < f.fh {
          NextRowOrder(f.interlace, row, pass, f.fh, p.row);
        }
      }
    }
  }

  lemma ComesBefore(f: Frame, p: Pixel, row: nat, pass: nat, col: nat)
    requires AtRow(f.interlace, row, pass, f.fh) && row < f.fh
    requires RowBefore(f.interlace, p.row, row, pass) || (p.row == row && p.col < col)
    ensures Before(f.interlace, p, Pixel(row, col))
  {
  }

  // ----- what a drawn frame looks like -----

  /** Each listed place shows its own index, unless that is the transparent one. */
  lemma {:induction false} PaintedAt(f: Frame, places: seq<Pixel>, indices: seq<nat>, was: nat, i: nat)
    requires |places| == |indices| && Distinct(places) && i < |places|
    ensures Painted(f, places, indices, was, f.fy + places[i].row, f.fx + places[i].col)
         == if indices[i] != f.transparent then ColourOf(f, indices[i]) else was
    decreases |places|
  {
    var n := |places| - 1;
    if i < n {
      PaintedAt(f, places[..n], indices[..n], was, i);
      assert places[i] != places[n];
    } else {
      PaintedElsewhere(f, places[..n], indices[..n], was, f.fy + places[n].row, f.fx + places[n].col);
    }
  }

  lemma {:induction false} PaintedElsewhere(f: Frame, places: seq<Pixel>, indices: seq<nat>, was: nat, y: nat, x: nat)
    requires |places| == |indices| && forall i | 0 <= i < |places| ::
             y != f.fy + places[i].row || x != f.fx + places[i].col
    ensures Painted(f, places, indices, was, y, x) == was
  {
    if places != [] {
      var n := |places| - 1;
      assert forall i | 0 <= i < n :: places[..n][i] == places[i];
      PaintedElsewhere(f, places[..n], indices[..n], was, y, x);
    }
  }

  /** When nothing is left every pixel of the frame has been visited exactly once. */
  lemma FullFrame(f: Frame, places: seq<Pixel>, row: nat, pass: nat, col: nat)
    requires AtRow(f.interlace, row, pass, f.fh) && (f.fw > 0 ==> col < f.fw) && Visited(f, places, row, pass, col)
    requires |places| == Area(f.fh, f.fw)
    ensures Distinct(places) && forall p: Pixel :: p in places <==> p.row < f.fh && p.col < f.fw
  {
    hide AtRow, RowBefore, Before;
    OrderedDistinct(f, places);
    FramePixelsAre(f.fh, f.fw);
    var seen := set p | p in places;
    DistinctCount(places, seen);
    assert seen <= FramePixels(f.fh, f.fw);
    if seen != FramePixels(f.fh, f.fw) {
      Smaller(seen, FramePixels(f.fh, f.fw));
    }
  }

  lemma Smaller(s: set<Pixel>, t: set<Pixel>)
    requires s < t
    ensures |s| < |t|
  {
    var x :| x in t && x !in s;
    assert t == s + {x} + (t - s - {x});
    assert |s + {x}| == |s| + 1;
  }
}
