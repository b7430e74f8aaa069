/** The pure drawing algorithms of the ILI9488 driver
    (src/platform/pico/Ili9488Display.cpp): clamping a dirty rectangle to the
    320x320 screen, the RGB565 scratch buffer that covers the dirty rectangle,
    plotting into it through a clip rectangle, and Bresenham line drawing. The
    scratch pointer is an `Option`: `None` is the null pointer, whose recorded
    size is 0x0. */
module Raster {
  import opened Ints
  import opened Wrappers
  import opened DirtyRect

  const W: int := 320
  const H: int := 320

  predicate OnScreen(x: int, y: int) {
    0 <= x < W && 0 <= y < H
  }

  /** `clampToScreen`: an empty rectangle is returned as is; otherwise each
      bound is pulled onto the screen, so the result holds exactly the
      on-screen points of the input (it may become empty). */
  function ClampToScreen(r: Rect): (c: Rect)
    ensures Empty(r) ==> c == r
    ensures !Empty(r) ==> 0 <= c.x0 && 0 <= c.y0 && c.x1 < W && c.y1 < H
    ensures !Empty(r) ==> forall x, y :: Contains(c, x, y) <==> Contains(r, x, y) && OnScreen(x, y)
    ensures Within(c, r)
  {
    if Empty(r) then r
    else Rect(if r.x0 < 0 then 0 else r.x0, if r.y0 < 0 then 0 else r.y0,
              if r.x1 >= W then W - 1 else r.x1, if r.y1 >= H then H - 1 else r.y1)
  }

  // ---------------------------------------------------------------------------
  // The scratch buffer

  /** `scratch`, `scratchW`, `scratchH`: a row-major w x h block of pixels. */
  datatype Scratch = Scratch(w: int, h: int, pixels: seq<u16>)
  {
    predicate Valid() { 0 <= w && 0 <= h && |pixels| == w * h }
  }

  lemma IndexInBounds(w: int, h: int, px: int, py: int)
    requires 0 <= px < w && 0 <= py < h
    ensures 0 <= py * w + px < w * h
  {
    assert py * w + px < py * w + w == (py + 1) * w <= h * w;
  }

  /** Distinct cells of a row-major block have distinct indices. */
  lemma IndexInjective(w: int, px: int, py: int, qx: int, qy: int)
    requires 0 <= px < w && 0 <= qx < w && 0 <= py && 0 <= qy
    requires py * w + px == qy * w + qx
    ensures px == qx && py == qy
  {
    DivUnique(py * w + px, w, py, px);
    DivUnique(qy * w + qx, w, qy, qx);
  }

  /** The pixel at column px, row py of the scratch block. */
  function Pixel(s: Scratch, px: int, py: int): u16
    requires s.Valid() && 0 <= px < s.w && 0 <= py < s.h
  {
    IndexInBounds(s.w, s.h, px, py);
    s.pixels[py * s.w + px]
  }

  /** `ensureScratch`: nothing happens when the block already has the size
      asked for; otherwise it is reallocated to w x h, keeping the old pixels
      as a prefix. When the allocation fails (`allocOk` false) the old block
      and its old size are kept. */
  function EnsureScratch(s: Option<Scratch>, w: int, h: int, allocOk: bool): (r: Option<Scratch>)
    requires s.Some? ==> s.value.Valid()
    requires 0 <= w && 0 <= h
    ensures r.Some? ==> r.value.Valid()
    ensures s.Some? && s.value.w == w && s.value.h == h ==> r == s
    ensures !(s.Some? && s.value.w == w && s.value.h == h) && !allocOk ==> r == s
    ensures !(s.Some? && s.value.w == w && s.value.h == h) && allocOk ==>
      && r.Some? && r.value.w == w && r.value.h == h
      && (s.Some? ==> forall k :: 0 <= k < |s.value.pixels| && k < w * h ==> r.value.pixels[k] == s.value.pixels[k])
  {
    if s.Some? && s.value.w == w && s.value.h == h then s
    else if !allocOk then s
    else
      var prev := if s.Some? then s.value.pixels else [];
      var n := w * h;
      var kept := if |prev| <= n then prev else prev[..n];
      Some(Scratch(w, h, kept + seq(n - |kept|, _ => 0)))
  }

  /** `clearScratchToBlack`: every pixel of an allocated block becomes 0. */
  function ClearScratchToBlack(s: Option<Scratch>): (r: Option<Scratch>)
    requires s.Some? ==> s.value.Valid()
    ensures r.Some? <==> s.Some?
    ensures r.Some? ==> r.value.Valid() && r.value.w == s.value.w && r.value.h == s.value.h
    ensures r.Some? ==> forall k :: 0 <= k < |r.value.pixels| ==> r.value.pixels[k] == 0
  {
    if s.None? then s else Some(s.value.(pixels := seq(|s.value.pixels|, _ => 0)))
  }

  /** Whether `plot565` writes the point: inside the clip rectangle, and at an
      offset from the clip origin that lies inside the block. */
  predicate Visible(s: Option<Scratch>, x: int, y: int, clip: Rect) {
    && s.Some?
    && Contains(clip, x, y)
    && x - clip.x0 < s.value.w && y - clip.y0 < s.value.h
  }

  /** `plot565`: writes `color` at offset (x - clip.x0, y - clip.y0) of the
      block when the point is visible, and is a no-op otherwise. What it does
      to each pixel is stated by `PlotWritesOnePixel`. */
  function Plot565(s: Option<Scratch>, x: int, y: int, color: u16, clip: Rect): (r: Option<Scratch>)
    requires s.Some? ==> s.value.Valid()
    ensures r.Some? <==> s.Some?
    ensures r.Some? ==> r.value.Valid() && r.value.w == s.value.w && r.value.h == s.value.h
    ensures !Visible(s, x, y, clip) ==> r == s
  {
    if !Visible(s, x, y, clip) then s
    else
      var sc := s.value;
      var sx, sy := x - clip.x0, y - clip.y0;
      IndexInBounds(sc.w, sc.h, sx, sy);
      Some(sc.(pixels := sc.pixels[sy * sc.w + sx := color]))
  }

  /** Plotting a visible point changes exactly the pixel at its offset from
      the clip origin; every other pixel keeps its value. */
  lemma PlotWritesOnePixel(s: Option<Scratch>, x: int, y: int, color: u16, clip: Rect, px: int, py: int)
    requires s.Some? && s.value.Valid() && 0 <= px < s.value.w && 0 <= py < s.value.h
    ensures Pixel(Plot565(s, x, y, color, clip).value, px, py) ==
      if Visible(s, x, y, clip) && px == x - clip.x0 && py == y - clip.y0 then color else Pixel(s.value, px, py)
  {
    if Visible(s, x, y, clip) {
      var sc := s.value;
      var sx, sy := x - clip.x0, y - clip.y0;
      IndexInBounds(sc.w, sc.h, px, py);
      IndexInBounds(sc.w, sc.h, sx, sy);
      if py * sc.w + px == sy * sc.w + sx {
        IndexInjective(sc.w, px, py, sx, sy);
      }
    }
  }

  /** The points of a sequence plotted one after another. */
  function PlotAll(s: Option<Scratch>, pts: seq<(int, int)>, color: u16, clip: Rect): (r: Option<Scratch>)
    requires s.Some? ==> s.value.Valid()
    ensures r.Some? <==> s.Some?
    ensures r.Some? ==> r.value.Valid() && r.value.w == s.value.w && r.value.h == s.value.h
    decreases |pts|
  {
    if |pts| == 0 then s
    else Plot565(PlotAll(s, pts[..|pts| - 1], color, clip), pts[|pts| - 1].0, pts[|pts| - 1].1, color, clip)
  }

  /** A pixel after plotting a series of points is either untouched or holds
      the line colour, the latter only where one of the points landed. */
  lemma {:induction false} PlotAllOnlyTouchesPoints(s: Option<Scratch>, pts: seq<(int, int)>, color: u16, clip: Rect, px: int, py: int)
    requires s.Some? && s.value.Valid() && 0 <= px < s.value.w && 0 <= py < s.value.h
    ensures var r := PlotAll(s, pts, color, clip).value;
      || Pixel(r, px, py) == Pixel(s.value, px, py)
      || (Pixel(r, px, py) == color && exists k :: 0 <= k < |pts| && pts[k] == (px + clip.x0, py + clip.y0))
    decreases |pts|
  {
    if |pts| > 0 {
      var front := pts[..|pts| - 1];
      PlotAllOnlyTouchesPoints(s, front, color, clip, px, py);
      var mid := PlotAll(s, front, color, clip);
      var last := pts[|pts| - 1];
      PlotWritesOnePixel(mid, last.0, last.1, color, clip, px, py);
      if Visible(mid, last.0, last.1, clip) && px == last.0 - clip.x0 && py == last.1 - clip.y0 {
        assert pts[|pts| - 1] == (px + clip.x0, py + clip.y0);
      } else {
        assert Pixel(PlotAll(s, pts, color, clip).value, px, py) == Pixel(mid.value, px, py);
        if Pixel(mid.value, px, py) != Pixel(s.value, px, py) {
          var k :| 0 <= k < |front| && front[k] == (px + clip.x0, py + clip.y0);
          assert pts[k] == front[k];
        }
      }
    }
  }

  /** Whether plotting the points writes pixel (px, py) of a block placed at
      the clip origin: the point there is one of them and inside the clip. */
  predicate Hits(pts: seq<(int, int)>, clip: Rect, px: int, py: int) {
    Contains(clip, px + clip.x0, py + clip.y0) && (px + clip.x0, py + clip.y0) in pts
  }

  /** After plotting a series of points, a pixel holds the colour exactly
      when one of the points lands on it, and keeps its old value otherwise. */
  lemma {:induction false} PlotAllPixel(s: Option<Scratch>, pts: seq<(int, int)>, color: u16, clip: Rect, px: int, py: int)
    requires s.Some? && s.value.Valid() && 0 <= px < s.value.w && 0 <= py < s.value.h
    ensures Pixel(PlotAll(s, pts, color, clip).value, px, py) ==
      if Hits(pts, clip, px, py) then color else Pixel(s.value, px, py)
    decreases |pts|
  {
    if |pts| > 0 {
      var front, last := pts[..|pts| - 1], pts[|pts| - 1];
      PlotAllPixel(s, front, color, clip, px, py);
      var mid := PlotAll(s, front, color, clip);
      PlotWritesOnePixel(mid, last.0, last.1, color, clip, px, py);
      assert pts == front + [last];
    }
  }

  // ---------------------------------------------------------------------------
  // Bresenham

  function Max(a: int, b: int): int { if a > b then a else b }
  function Min(a: int, b: int): int { if a < b then a else b }

  /** Consecutive points of a line: one step in x, in y, or both. */
  predicate Neighbours(p: (int, int), q: (int, int)) {
    p != q && -1 <= q.0 - p.0 <= 1 && -1 <= q.1 - p.1 <= 1
  }

  /** One loop iteration of `drawLine565`, in terms of the steps taken so far:
      i along x out of dx, j along y out of dy, with the error term
      `err == j*dx - i*dy + dx - dy`. Its deviation from the ideal line stays
      within half the longer extent, the longer axis advances on every step,
      and neither axis overshoots its end. */
  lemma BresenhamStep(dx: int, dy: int, i: int, j: int)
    requires 0 <= i <= dx && 0 <= j <= dy && !(i == dx && j == dy)
    requires -Max(dx, dy) <= 2 * (j * dx - i * dy) <= Max(dx, dy)
    ensures
      var e2 := 2 * (j * dx - i * dy + dx - dy);
      var ni := if e2 >= -dy then i + 1 else i;
      var nj := if e2 <= dx then j + 1 else j;
      && ni <= dx && nj <= dy
      && -Max(dx, dy) <= 2 * (nj * dx - ni * dy) <= Max(dx, dy)
      && (dx >= dy ==> ni == i + 1)
      && (dy >= dx ==> nj == j + 1)
  {
    var e := j * dx - i * dy;
    if i == dx {
      AtEndOfX(dx, dy, j);
    }
    if j == dy {
      AtEndOfY(dx, dy, i);
    }
    StepBounds(dx, dy, e, i == dx, j == dy);
    StepShift(dx, dy, i, j);
  }

  /** Once x has taken all its steps, the error term is at most -dx. */
  lemma AtEndOfX(dx: int, dy: int, j: int)
    requires 0 <= dx && 0 <= j < dy
    ensures j * dx - dx * dy <= -dx
  {
    NegativeProduct(dx, j - dy);
    assert j * dx - dx * dy == dx * (j - dy);
  }

  /** Once y has taken all its steps, the error term is at least dy. */
  lemma AtEndOfY(dx: int, dy: int, i: int)
    requires 0 <= i < dx && 0 <= dy
    ensures dy * dx - i * dy >= dy
  {
    MulAtLeast(dx - i, dy);
    assert dy * dx - i * dy == (dx - i) * dy;
  }

  /** How the error term moves with a step in x, in y, or both. */
  lemma StepShift(dx: int, dy: int, i: int, j: int)
    ensures (j + 1) * dx - (i + 1) * dy == j * dx - i * dy - dy + dx
    ensures j * dx - (i + 1) * dy == j * dx - i * dy - dy
    ensures (j + 1) * dx - i * dy == j * dx - i * dy + dx
  {
  }

  /** The linear core of `BresenhamStep`, with the error term `e` abstracted:
      an axis that has reached its end has an error term that keeps it from
      stepping again. */
  lemma StepBounds(dx: int, dy: int, e: int, xEnd: bool, yEnd: bool)
    requires 0 <= dx && 0 <= dy && !(xEnd && yEnd)
    requires dx == 0 ==> xEnd
    requires dy == 0 ==> yEnd
    requires xEnd ==> e <= -dx
    requires yEnd ==> e >= dy
    requires -Max(dx, dy) <= 2 * e <= Max(dx, dy)
    ensures
      var e2 := 2 * (e + dx - dy);
      var xs, ys := e2 >= -dy, e2 <= dx;
      var ne := e - (if xs then dy else 0) + (if ys then dx else 0);
      && (xs ==> !xEnd) && (ys ==> !yEnd)
      && -Max(dx, dy) <= 2 * ne <= Max(dx, dy)
      && (dx >= dy ==> xs) && (dy >= dx ==> ys)
  {
  }

  lemma NegativeProduct(a: int, b: int)
    requires a >= 0 && b <= -1
    ensures a * b <= -a
  {
    assert a * b == -a + a * (b + 1);
    assert a * (b + 1) <= 0;
  }

  /** The position and error term of the line walk. */
  datatype Walk = Walk(x: int, y: int, err: int)

  /** One step of the `drawLine565` loop: with `e2 = err << 1`, a step in x
      when `e2 >= dy` and a step in y when `e2 <= dx`, where `dy` is the
      negated vertical extent. */
  function Advance(wk: Walk, x0: int, y0: int, x1: int, y1: int): Walk {
    var dx, dy := Abs(x1 - x0), -(Abs(y1 - y0) as int);
    var sx, sy := if x0 < x1 then 1 else -1, if y0 < y1 then 1 else -1;
    var e2 := wk.err * 2;
    var stepX := e2 >= dy;
    var stepY := e2 <= dx;
    Walk(if stepX then wk.x + sx else wk.x,
         if stepY then wk.y + sy else wk.y,
         wk.err + (if stepX then dy else 0) + (if stepY then dx else 0))
  }

  /** The walk after i steps in x and j in y: its position, its error term,
      and the error term's deviation bound. */
  predicate WalkAt(wk: Walk, x0: int, y0: int, x1: int, y1: int, i: int, j: int) {
    var dx, ady := Abs(x1 - x0), Abs(y1 - y0);
    && 0 <= i <= dx && 0 <= j <= ady
    && wk.x == (if x0 < x1 then x0 + i else x0 - i)
    && wk.y == (if y0 < y1 then y0 + j else y0 - j)
    && wk.err == j * dx - i * ady + dx - ady
    && -Max(dx, ady) <= 2 * (j * dx - i * ady) <= Max(dx, ady)
  }

  /** The walk is at the end point exactly when both axes took all their steps. */
  lemma WalkAtEnd(wk: Walk, x0: int, y0: int, x1: int, y1: int, i: int, j: int)
    requires WalkAt(wk, x0, y0, x1, y1, i, j)
    ensures (wk.x == x1 && wk.y == y1) <==> (i == Abs(x1 - x0) && j == Abs(y1 - y0))
  {
  }

  /** A step away from the end keeps the walk on the line: it moves to an
      8-neighbour inside the endpoints' bounding box, and the longer axis
      always advances. */
  lemma AdvanceKeeps(wk: Walk, x0: int, y0: int, x1: int, y1: int, i: int, j: int)
    requires WalkAt(wk, x0, y0, x1, y1, i, j) && !(wk.x == x1 && wk.y == y1)
    ensures
      var dx: int, ady: int := Abs(x1 - x0), Abs(y1 - y0);
      var nw := Advance(wk, x0, y0, x1, y1);
      var ni := if wk.err * 2 >= -ady then i + 1 else i;
      var nj := if wk.err * 2 <= dx then j + 1 else j;
      && WalkAt(nw, x0, y0, x1, y1, ni, nj)
      && Neighbours((wk.x, wk.y), (nw.x, nw.y))
      && (dx >= ady ==> ni == i + 1)
      && (ady >= dx ==> nj == j + 1)
  {
    var dx, ady := Abs(x1 - x0), Abs(y1 - y0);
    WalkAtEnd(wk, x0, y0, x1, y1, i, j);
    BresenhamStep(dx, ady, i, j);
    StepShift(dx, ady, i, j);
  }

  predicate InBox(p: (int, int), x0: int, y0: int, x1: int, y1: int) {
    Min(x0, x1) <= p.0 <= Max(x0, x1) && Min(y0, y1) <= p.1 <= Max(y0, y1)
  }

  /** Appending a neighbouring point inside the box keeps a walk's points
      connected and boxed, and plotting it extends the plotted series. */
  lemma AppendPoint(s: Option<Scratch>, pts: seq<(int, int)>, q: (int, int), color: u16, clip: Rect,
                    x0: int, y0: int, x1: int, y1: int)
    requires s.Some? ==> s.value.Valid()
    requires |pts| > 0 && Neighbours(pts[|pts| - 1], q) && InBox(q, x0, y0, x1, y1)
    requires forall k :: 0 <= k < |pts| - 1 ==> Neighbours(pts[k], pts[k + 1])
    requires forall k :: 0 <= k < |pts| ==> InBox(pts[k], x0, y0, x1, y1)
    ensures var ext := pts + [q];
      && (forall k :: 0 <= k < |ext| - 1 ==> Neighbours(ext[k], ext[k + 1]))
      && (forall k :: 0 <= k < |ext| ==> InBox(ext[k], x0, y0, x1, y1))
      && PlotAll(s, ext, color, clip) == Plot565(PlotAll(s, pts, color, clip), q.0, q.1, color, clip)
  {
    assert (pts + [q])[..|pts|] == pts;
  }

  /** `drawLine565`: plots from (x0, y0) to (x1, y1) one pixel per iteration,
      and returns the points in the order plotted. The line has one point per
      unit of its longer extent plus one, starts and ends at the endpoints,
      moves to an 8-neighbour at every step and stays inside the endpoints'
      bounding box. */
  method DrawLine565(s: Option<Scratch>, x0: int, y0: int, x1: int, y1: int, color: u16, clip: Rect)
    returns (r: Option<Scratch>, pts: seq<(int, int)>)
    requires s.Some? ==> s.value.Valid()
    ensures |pts| == Max(Abs(x1 - x0), Abs(y1 - y0)) + 1
    ensures pts[0] == (x0, y0) && pts[|pts| - 1] == (x1, y1)
    ensures forall k :: 0 <= k < |pts| - 1 ==> Neighbours(pts[k], pts[k + 1])
    ensures forall k :: 0 <= k < |pts| ==> InBox(pts[k], x0, y0, x1, y1)
    ensures r == PlotAll(s, pts, color, clip)
  {
    var dx: int, ady: int := Abs(x1 - x0), Abs(y1 - y0);
    var wk := Walk(x0, y0, dx - ady);
    ghost var i, j := 0, 0;

    pts := [(x0, y0)];
    r := Plot565(s, x0, y0, color, clip);
    assert r == PlotAll(s, pts, color, clip) by { assert pts[..0] == []; }
    while !(wk.x == x1 && wk.y == y1)
      invariant LineSoFar(s, x0, y0, x1, y1, color, clip, wk, i, j, pts, r)
      decreases (dx - i) + (ady - j)
    {
      wk, i, j, pts, r := LineStep(s, x0, y0, x1, y1, color, clip, wk, i, j, pts, r);
    }
    WalkAtEnd(wk, x0, y0, x1, y1, i, j);
  }

  /** The state of `drawLine565` after i steps in x and j in y: the points
      plotted so far form an 8-connected path from (x0, y0) to the walk's
      position inside the endpoints' box, and the scratch holds them. */
  predicate LineSoFar(s: Option<Scratch>, x0: int, y0: int, x1: int, y1: int, color: u16, clip: Rect,
                      wk: Walk, i: int, j: int, pts: seq<(int, int)>, r: Option<Scratch>)
    requires s.Some? ==> s.value.Valid()
  {
    && WalkAt(wk, x0, y0, x1, y1, i, j)
    && |pts| == (if Abs(x1 - x0) >= Abs(y1 - y0) then i else j) + 1
    && pts[0] == (x0, y0) && pts[|pts| - 1] == (wk.x, wk.y)
    && (forall k :: 0 <= k < |pts| - 1 ==> Neighbours(pts[k], pts[k + 1]))
    && (forall k :: 0 <= k < |pts| ==> InBox(pts[k], x0, y0, x1, y1))
    && (r.Some? ==> r.value.Valid())
    && r == PlotAll(s, pts, color, clip)
  }

  /** One pass of the drawing loop: the walk advances, the new point is
      appended and plotted, and the remaining distance shrinks. */
  method LineStep(s: Option<Scratch>, x0: int, y0: int, x1: int, y1: int, color: u16, clip: Rect,
                  wk: Walk, ghost i: int, ghost j: int, pts: seq<(int, int)>, r: Option<Scratch>)
    returns (nwk: Walk, ghost ni: int, ghost nj: int, npts: seq<(int, int)>, nr: Option<Scratch>)
    requires s.Some? ==> s.value.Valid()
    requires LineSoFar(s, x0, y0, x1, y1, color, clip, wk, i, j, pts, r)
    requires !(wk.x == x1 && wk.y == y1)
    ensures LineSoFar(s, x0, y0, x1, y1, color, clip, nwk, ni, nj, npts, nr)
    ensures npts == pts + [(nwk.x, nwk.y)]
    ensures i <= ni && j <= nj && i + j < ni + nj
  {
    AdvanceKeeps(wk, x0, y0, x1, y1, i, j);
    var dx: int, ady: int := Abs(x1 - x0), Abs(y1 - y0);
    ni := if wk.err * 2 >= -ady then i + 1 else i;
    nj := if wk.err * 2 <= dx then j + 1 else j;
    nwk := Advance(wk, x0, y0, x1, y1);
    AppendPoint(s, pts, (nwk.x, nwk.y), color, clip, x0, y0, x1, y1);
    npts := pts + [(nwk.x, nwk.y)];
    nr := Plot565(r, nwk.x, nwk.y, color, clip);
  }

  /** Drawing (0,0) to (10,0) plots eleven pixels. */
  method HorizontalLineHasElevenPoints(s: Option<Scratch>, clip: Rect) returns (n: nat)
    requires s.Some? ==> s.value.Valid()
    ensures n == 11
  {
    var r, pts := DrawLine565(s, 0, 0, 10, 0, 0xFFFF, clip);
    n := |pts|;
  }
}
